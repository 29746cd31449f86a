/** Sequences of state-changing requests from one client against one database: the store
    invariants, the one-completion-per-day invariant and the session invariant hold after
    every request, and some request sequences end the way the API promises. */
module Trace {
  import opened Schema
  import opened Daily
  import opened Handlers
  import opened Claims

  datatype World = World(db: Tables, session: Option<int>)

  datatype Request =
    | SignupReq(username: Option<string>, password: Option<string>, insertFails: bool)
    | LoginReq(username: Option<string>, password: Option<string>, queryFails: bool)
    | LogoutReq(destroyFails: bool)
    | ClaimReq(today: int, now: int, fault: ClaimFault)

  /** A new database file with no session. */
  const Start := World(Tables([], [], [], []), None)

  /** The server once the startup seeding has run on a new database file; the seeding
      runs once, before any request, and answers nothing. */
  function Booted(countFails: bool): (w: World)
    ensures WellFormed(w.db) && w.session == None
    ensures countFails <==> w.db.tips == []
  {
    World(Start.db.(tips := Seeded(Start.db.tips, countFails)), None)
  }

  /** The store's own guarantees, the claim's uniqueness, and a session that is empty or
      names an existing user. */
  ghost predicate Invariant(w: World) {
    && WellFormed(w.db)
    && UniqueCompletions(w.db.tasks)
    && (w.session.None? || 1 <= w.session.value <= |w.db.users|)
  }

  function Step(w: World, req: Request, hash: string -> string, isoDate: int -> string): (r: (World, Response))
    requires WellFormed(w.db)
    ensures WellFormed(r.0.db)
  {
    var db := w.db;
    match req
    case SignupReq(username, password, insertFails) =>
      var a := Signup(db.users, w.session, username, password, hash, insertFails);
      SignupKeepsUsersWellFormed(db.users, w.session, username, password, hash, insertFails);
      (World(db.(users := a.users), a.session), a.resp)
    case LoginReq(username, password, queryFails) =>
      var a := Login(db.users, w.session, username, password, hash, queryFails);
      (World(db, a.session), a.resp)
    case LogoutReq(destroyFails) =>
      var e := Logout(w.session, destroyFails);
      (World(db, e.session), e.resp)
    case ClaimReq(today, now, fault) =>
      var c := Claim(db.tasks, db.rewards, w.session, today, now, isoDate, fault);
      ClaimKeepsKeys(db.tasks, db.rewards, w.session, today, now, isoDate, fault);
      (World(db.(tasks := c.tasks, rewards := c.rewards), w.session), c.resp)
  }

  function Run(w: World, reqs: seq<Request>, hash: string -> string, isoDate: int -> string): (r: World)
    requires WellFormed(w.db)
    ensures WellFormed(r.db)
    decreases |reqs|
  {
    if reqs == [] then w else Run(Step(w, reqs[0], hash, isoDate).0, reqs[1..], hash, isoDate)
  }

  lemma StepKeepsInvariant(w: World, req: Request, hash: string -> string, isoDate: int -> string)
    requires Invariant(w)
    ensures Invariant(Step(w, req, hash, isoDate).0)
  {
    var w' := Step(w, req, hash, isoDate).0;
    match req
    case ClaimReq(today, now, fault) =>
      ClaimKeepsUniqueCompletions(w.db.tasks, w.db.rewards, w.session, today, now, isoDate, fault);
    case LoginReq(username, password, queryFails) =>
      if w'.session != w.session {
        var u :| u in w.db.users && u.username == username.value && w'.session == Some(u.id);
        var k :| 0 <= k < |w.db.users| && w.db.users[k] == u;
      }
    case _ =>
  }

  lemma {:induction false} RunKeepsInvariant(w: World, reqs: seq<Request>, hash: string -> string, isoDate: int -> string)
    requires Invariant(w)
    ensures Invariant(Run(w, reqs, hash, isoDate))
    decreases |reqs|
  {
    if reqs != [] {
      StepKeepsInvariant(w, reqs[0], hash, isoDate);
      RunKeepsInvariant(Step(w, reqs[0], hash, isoDate).0, reqs[1..], hash, isoDate);
    }
  }

  /** Whatever requests arrive one after another once the server has started, no user ever
      has two completion rows for the same day, and `/api/me` never meets a session that
      names a missing user. */
  lemma ReachableWorlds(seedFails: bool, reqs: seq<Request>, hash: string -> string, isoDate: int -> string,
                        userId: int, date: int)
    ensures var w := Run(Booted(seedFails), reqs, hash, isoDate);
            && CompletionCount(w.db.tasks, userId, date) <= 1
            && (MeView(w.db.users, w.session, false).body.Me? <==> w.session.Some?)
  {
    RunKeepsInvariant(Booted(seedFails), reqs, hash, isoDate);
    var w := Run(Booted(seedFails), reqs, hash, isoDate);
    UniqueMeansAtMostOne(w.db.tasks, userId, date);
    if w.session.Some? {
      assert w.db.users[w.session.value - 1] in w.db.users;
    }
  }

  /** After a successful signup, logging out and in again with the same credentials
      succeeds and restores the new user's session. */
  lemma SignupLogoutLogin(w: World, username: string, password: string, hash: string -> string, isoDate: int -> string)
    requires Invariant(w)
    requires username != "" && password != "" && !Taken(w.db.users, username)
    ensures var w1 := Step(w, SignupReq(Some(username), Some(password), false), hash, isoDate);
            var w2 := Step(w1.0, LogoutReq(false), hash, isoDate);
            var w3 := Step(w2.0, LoginReq(Some(username), Some(password), false), hash, isoDate);
            && w1.1 == Success && w2.1 == Success && w3.1 == Success
            && w2.0.session == None
            && w3.0.session == Some(|w.db.users| + 1) == w1.0.session
  {
    var w1 := Step(w, SignupReq(Some(username), Some(password), false), hash, isoDate);
    var users := w1.0.db.users;
    var u := User(|w.db.users| + 1, username, hash(password));
    assert users[|w.db.users|] == u;
    var w3 := Step(w1.0, LoginReq(Some(username), Some(password), false), hash, isoDate);
    var v :| v in users && v.username == username && w3.0.session == Some(v.id);
    var k :| 0 <= k < |users| && users[k] == v;
    assert k == |w.db.users|;
  }

  /** After a successful login `/api/me` reports the user that logged in. */
  lemma LoginThenMe(w: World, username: string, password: string, hash: string -> string, isoDate: int -> string)
    requires Invariant(w)
    ensures var w1 := Step(w, LoginReq(Some(username), Some(password), false), hash, isoDate);
            w1.1 == Success ==> MeView(w1.0.db.users, w1.0.session, false).body == Me(w1.0.session.value, username)
  {
    var w1 := Step(w, LoginReq(Some(username), Some(password), false), hash, isoDate);
    if w1.1 == Success {
      var u :| u in w.db.users && u.username == username && w1.0.session == Some(u.id);
      var k :| 0 <= k < |w.db.users| && w.db.users[k] == u;
      var me := MeView(w1.0.db.users, w1.0.session, false);
      var v :| v in w.db.users && v.id == me.body.id && v.username == me.body.username;
      var j :| 0 <= j < |w.db.users| && w.db.users[j] == v;
    }
  }

  /** After a successful logout every login-gated request is refused with 401 and the
      store is left as it was. */
  lemma LogoutThenGated(w: World, today: int, now: int, fault: ClaimFault, day: DayOfMonth, queryFails: bool,
                        hash: string -> string, isoDate: int -> string)
    requires WellFormed(w.db)
    ensures var w1 := Step(w, LogoutReq(false), hash, isoDate).0;
            && Step(w1, ClaimReq(today, now, fault), hash, isoDate) == (w1, NotLoggedIn)
            && TaskView(w1.session, day) == NotLoggedIn
            && RewardsView(w1.db.rewards, w1.session, queryFails) == NotLoggedIn
            && MeView(w1.db.users, w1.session, queryFails) == LoggedOut
  {
  }
}
