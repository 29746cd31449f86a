/** The API handlers of the habit tracker as functions of the tables, the session's user
    id and the outcome of each store call. A `...Fails` flag (or a `ClaimFault`) stands for
    the `err` argument of a sqlite3 callback; bcrypt's hash is the injected `hash`, and a
    stored hash matches a password when it equals `hash(password)`. */
module Handlers {
  import opened Schema
  import opened Daily
  import Rewards

  datatype RewardView = RewardView(text: string, date: int)

  /** The JSON bodies the handlers send. */
  datatype Body =
    | Done                           // { success: true }
    | DoneWithReward(reward: string) // { success: true, reward }
    | Error(error: string)           // { error }
    | Note(message: string)          // { message }
    | TaskText(task: string)         // { task }
    | Anonymous                      // { loggedIn: false }
    | Me(id: int, username: string)  // { loggedIn: true, user: { id, username } }
    | StreakData(labels: seq<int>, values: seq<int>)
    | RewardList(rewards: seq<RewardView>)

  datatype Response = Response(status: int, body: Body)

  const Success := Response(200, Done)
  const MissingFields := Response(400, Error("Missing fields"))
  const DuplicateUsername := Response(400, Error("Username already exists"))
  const InvalidCredentials := Response(400, Error("Invalid username or password"))
  const NotLoggedIn := Response(401, Error("Not logged in"))
  const DbError := Response(500, Error("DB error"))
  const DbInsertError := Response(500, Error("DB insert error"))
  const LogoutError := Response(500, Error("Could not log out"))
  const AlreadyDone := Response(200, Note("Already completed today"))
  const LoggedOut := Response(200, Anonymous)

  /** A body field counts as given when it is present and not the empty string, the
      strings JavaScript treats as true. */
  predicate Present(field: Option<string>) {
    field.Some? && field.value != ""
  }

  /** `requireLogin`: the request goes on with the session's user id when that id is set
      and non-zero; otherwise it is answered 401 before the store is used. */
  function SessionUser(session: Option<int>): (uid: Option<int>)
    ensures uid.Some? <==> session.Some? && session.value != 0
    ensures uid.Some? ==> uid == session
  {
    match session
    case Some(id) => if id != 0 then session else None
    case None => None
  }

  ghost predicate Taken(users: seq<User>, name: string) {
    exists u :: u in users && u.username == name
  }

  /** The users table, the session and the response after a signup or login request. */
  datatype Auth = Auth(users: seq<User>, session: Option<int>, resp: Response)

  /** `POST /api/signup`. The insert fails on the UNIQUE username or on any other store
      error, and either failure is answered "Username already exists". */
  function Signup(users: seq<User>, session: Option<int>, username: Option<string>, password: Option<string>,
                  hash: string -> string, insertFails: bool): (r: Auth)
    ensures !Present(username) || !Present(password) ==> r == Auth(users, session, MissingFields)
    ensures Present(username) && Present(password) && (insertFails || Taken(users, username.value)) ==>
              r == Auth(users, session, DuplicateUsername)
    ensures r.resp == Success <==>
              Present(username) && Present(password) && !insertFails && !Taken(users, username.value)
    ensures r.resp == Success ==>
              r.users == users + [User(|users| + 1, username.value, hash(password.value))] &&
              r.session == Some(|users| + 1)
  {
    if !Present(username) || !Present(password) then Auth(users, session, MissingFields)
    else if insertFails || FindUserByName(users, username.value).Some? then Auth(users, session, DuplicateUsername)
    else Auth(users + [User(|users| + 1, username.value, hash(password.value))], Some(|users| + 1), Success)
  }

  /** A successful signup keeps the keys sequential and the usernames unique. */
  lemma SignupKeepsUsersWellFormed(users: seq<User>, session: Option<int>, username: Option<string>,
                                   password: Option<string>, hash: string -> string, insertFails: bool)
    requires UserIds(users) && UniqueUsernames(users)
    ensures var r := Signup(users, session, username, password, hash, insertFails);
            UserIds(r.users) && UniqueUsernames(r.users)
  {
    var r := Signup(users, session, username, password, hash, insertFails);
    if r.resp == Success {
      forall i | 0 <= i < |users| ensures users[i].username != username.value {
        assert users[i] in users;
      }
    }
  }

  /** `POST /api/login`. An unknown username and a wrong password get the same answer. */
  function Login(users: seq<User>, session: Option<int>, username: Option<string>, password: Option<string>,
                 hash: string -> string, queryFails: bool): (r: Auth)
    requires UniqueUsernames(users)
    ensures r.users == users
    ensures !Present(username) || !Present(password) ==> r == Auth(users, session, MissingFields)
    ensures Present(username) && Present(password) && queryFails ==> r == Auth(users, session, DbError)
    ensures r.resp == Success <==>
              Present(username) && Present(password) && !queryFails &&
              exists u :: u in users && u.username == username.value && u.password == hash(password.value)
    ensures r.resp == Success ==>
              exists u :: u in users && u.username == username.value && r.session == Some(u.id)
    ensures r.resp != Success ==> r.session == session
    ensures Present(username) && Present(password) && !queryFails && r.resp != Success ==>
              r.resp == InvalidCredentials
  {
    if !Present(username) || !Present(password) then Auth(users, session, MissingFields)
    else if queryFails then Auth(users, session, DbError)
    else match FindUserByName(users, username.value)
      case None => Auth(users, session, InvalidCredentials)
      case Some(u) =>
        if u.password != hash(password.value) then
          assert forall v :: v in users && v.username == username.value ==> v == u by {
            forall v | v in users && v.username == username.value ensures v == u {
              var i :| 0 <= i < |users| && users[i] == u;
              var j :| 0 <= j < |users| && users[j] == v;
              assert i == j;
            }
          }
          Auth(users, session, InvalidCredentials)
        else Auth(users, Some(u.id), Success)
  }

  /** The session and the response after `POST /api/logout`. */
  datatype Ended = Ended(session: Option<int>, resp: Response)

  /** `POST /api/logout`. A failed destroy keeps the stored session. */
  function Logout(session: Option<int>, destroyFails: bool): (r: Ended)
    ensures !destroyFails ==> r.session == None && r.resp == Success
    ensures destroyFails ==> r.session == session && r.resp == LogoutError
  {
    if destroyFails then Ended(session, LogoutError) else Ended(None, Success)
  }

  /** `GET /api/me`: logged in only when the session names a user that the lookup finds. */
  function MeView(users: seq<User>, session: Option<int>, readFails: bool): (r: Response)
    ensures r.status == 200
    ensures r.body.Me? || r.body == Anonymous
    ensures r.body.Me? <==>
              SessionUser(session).Some? && !readFails && exists u :: u in users && u.id == session.value
    ensures r.body.Me? ==>
              session == Some(r.body.id) && exists u :: u in users && u.id == r.body.id && u.username == r.body.username
  {
    match SessionUser(session)
    case None => LoggedOut
    case Some(id) =>
      if readFails then LoggedOut
      else match FindUserById(users, id)
        case None => LoggedOut
        case Some(u) => Response(200, Me(u.id, u.username))
  }

  /** `GET /api/task`. */
  function TaskView(session: Option<int>, day: DayOfMonth): (r: Response)
    ensures SessionUser(session).None? ==> r == NotLoggedIn
    ensures SessionUser(session).Some? ==> r.status == 200 && r.body.TaskText? && r.body.task in Tasks
    ensures SessionUser(session).Some? ==> r.body == TaskText(Tasks[DayIndex(day, |Tasks|)])
  {
    if SessionUser(session).None? then NotLoggedIn else Response(200, TaskText(TaskOfDay(day)))
  }

  function View(x: RewardRow): RewardView {
    RewardView(x.reward, x.createdAt)
  }

  /** `rows.map(r => ({ text: r.reward, date: r.created_at }))`. */
  function Views(rows: seq<RewardRow>): (list: seq<RewardView>)
    ensures |list| == |rows|
    ensures forall k :: 0 <= k < |rows| ==> list[k] == View(rows[k])
  {
    seq(|rows|, k requires 0 <= k < |rows| => View(rows[k]))
  }

  /** The rewards a user is shown, most recent first. */
  function UserRewards(rewards: seq<RewardRow>, uid: int): (list: seq<RewardView>)
    ensures |list| == |RowsOf(rewards, RewardOwner, uid)|
    ensures forall i, j :: 0 <= i < j < |list| ==> list[i].date >= list[j].date
  {
    Views(Rewards.Listed(rewards, uid))
  }

  /** Each listed entry is one of the user's rewards, and each of the user's rewards is
      listed. */
  lemma UserRewardsAreTheUsers(rewards: seq<RewardRow>, uid: int)
    ensures forall k :: 0 <= k < |UserRewards(rewards, uid)| ==>
              exists x :: x in rewards && x.userId == uid && UserRewards(rewards, uid)[k] == View(x)
    ensures forall x :: x in rewards && x.userId == uid ==> View(x) in UserRewards(rewards, uid)
  {
    var rows := Rewards.Listed(rewards, uid);
    var list := UserRewards(rewards, uid);
    assert list == Views(rows);
    forall k | 0 <= k < |list| ensures exists x :: x in rewards && x.userId == uid && list[k] == View(x) {
      assert rows[k] in rows;
      assert list[k] == View(rows[k]);
    }
    forall x | x in rewards && x.userId == uid ensures View(x) in list {
      var k :| 0 <= k < |rows| && rows[k] == x;
      assert list[k] == View(x);
    }
  }

  /** `GET /api/rewards`. */
  function RewardsView(rewards: seq<RewardRow>, session: Option<int>, queryFails: bool): (r: Response)
    ensures SessionUser(session).None? ==> r == NotLoggedIn
    ensures SessionUser(session).Some? && queryFails ==> r == DbError
    ensures SessionUser(session).Some? && !queryFails ==>
              r == Response(200, RewardList(UserRewards(rewards, session.value)))
  {
    match SessionUser(session)
    case None => NotLoggedIn
    case Some(uid) => if queryFails then DbError else Response(200, RewardList(UserRewards(rewards, uid)))
  }

  datatype ClaimFault = NoFault | LookupFails | TaskInsertFails | RewardInsertFails

  /** The tasks and rewards tables and the response after a claim. */
  datatype Claimed = Claimed(tasks: seq<TaskRow>, rewards: seq<RewardRow>, resp: Response)

  /** The reward text carries the date the task was completed on. */
  function RewardText(date: string): (text: string)
    ensures |text| > |date| && text[|text| - |date|..] == date
  {
    "Eco Star \U{2014} completed task on " + date
  }

  /** `POST /api/task`: look up today's completion of the user; when there is none, insert
      the completion row and then the reward row. `isoDate` renders a day as `YYYY-MM-DD`. */
  function Claim(tasks: seq<TaskRow>, rewards: seq<RewardRow>, session: Option<int>, today: int, now: int,
                 isoDate: int -> string, fault: ClaimFault): (r: Claimed)
    ensures SessionUser(session).None? ==> r == Claimed(tasks, rewards, NotLoggedIn)
    ensures SessionUser(session).Some? && fault == LookupFails ==> r == Claimed(tasks, rewards, DbError)
    ensures SessionUser(session).Some? && fault != LookupFails && Completed(tasks, session.value, today) ==>
              r == Claimed(tasks, rewards, AlreadyDone)
    ensures SessionUser(session).Some? && !Completed(tasks, session.value, today) && fault == TaskInsertFails ==>
              r == Claimed(tasks, rewards, DbInsertError)
    ensures SessionUser(session).Some? && !Completed(tasks, session.value, today) && fault == RewardInsertFails ==>
              r == Claimed(tasks + [TaskRow(|tasks| + 1, session.value, today, 1)], rewards, DbInsertError)
    ensures SessionUser(session).Some? && !Completed(tasks, session.value, today) && fault == NoFault ==>
              var text := RewardText(isoDate(today));
              r == Claimed(tasks + [TaskRow(|tasks| + 1, session.value, today, 1)],
                           rewards + [RewardRow(|rewards| + 1, session.value, text, now)],
                           Response(200, DoneWithReward(text)))
  {
    match SessionUser(session)
    case None => Claimed(tasks, rewards, NotLoggedIn)
    case Some(uid) =>
      if fault == LookupFails then Claimed(tasks, rewards, DbError)
      else if FindCompletion(tasks, uid, today).Some? then Claimed(tasks, rewards, AlreadyDone)
      else if fault == TaskInsertFails then Claimed(tasks, rewards, DbInsertError)
      else
        var tasks' := tasks + [TaskRow(|tasks| + 1, uid, today, 1)];
        var text := RewardText(isoDate(today));
        if fault == RewardInsertFails then Claimed(tasks', rewards, DbInsertError)
        else Claimed(tasks', rewards + [RewardRow(|rewards| + 1, uid, text, now)], Response(200, DoneWithReward(text)))
  }
}
