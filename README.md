# Green Habit Tracker server, modelled in Dafny

This project models the Express/SQLite backend of the Green Habit Tracker (`server.js`). Users
sign up and log in. Once a day they claim the eco task of the day, which earns a reward
record. They can also read a streak window, their rewards and a tip of the day.

The four SQLite tables (`users`, `tasks`, `rewards`, `tips`) are sequences of rows in id
order. The express session is one optional user id.

Modules:

- `Schema` (schema.dfy): the rows and tables and the queries the handlers run. It also holds
  the invariants. The store itself keeps the AUTOINCREMENT keys and the UNIQUE username
  (`WellFormed`). Only the claim handler keeps "at most one completion row per (user, date)"
  (`UniqueCompletions`).
- `Daily` (daily.dfy): the task of the day, the tip of the day and the tip catalog seeded at
  startup.
- `Streak` (streak.dfy): the window of the last N days and the 0/1 completion flags.
- `Rewards` (rewards.dfy): one user's rewards, newest first.
- `Handlers` (handlers.dfy): each endpoint as a function of the tables, the session and the
  outcome of each store call, returning the new state and the JSON response.
- `Claims` (claims.dfy): properties of the daily task claim, for one call and for two calls
  in a row.
- `Server` (server.dfy): class `App`. The tables and the session are its fields. The handlers
  that change state are methods, and each is proved equal to its `Handlers` function. Tip
  seeding is the source's insert loop. The streak handler is the source's countdown loop.
- `Trace` (trace.dfy): any sequence of requests from one client, run one after another. The
  invariants hold after every request. A few request sequences end as the API promises.

The failure of any store call (the `err` argument of a sqlite3 callback) is a flag parameter
of the handler, or a `ClaimFault` for the three store calls of the claim. bcrypt and the ISO
date formatter are functions given to `App` when it is built (`hash`, `isoDate`). A stored
hash matches a password when it equals `hash(password)`. `Handlers.Login` requires unique
usernames, which the UNIQUE constraint on `users.username` guarantees. `Trace` runs only the
requests that change state; the read-only endpoints are functions of the state it reaches.

Three behaviours of the code that the model keeps:

- The rewards response is `{ rewards: [...] }` and nothing else.
- Signup answers "Username already exists" to any insert error, not only to the duplicate.
- The completion insert and the reward insert are not atomic. If the reward insert fails,
  the completion row stays, and every later claim that day answers "Already completed today"
  without a reward (`Claims.RewardLostAfterFailedInsert`).

## Model

| member | source | states |
|---|---|---|
| `Schema.FindUserByName` | server.js:94 | a found user is in the table with that username; none found means no row has it |
| `Schema.FindUserById` | server.js:189 | a found user is in the table with that id; none found means no row has it |
| `Schema.FindCompletion` | server.js:132 | a row is found iff the user has a completion row for that date, and the row found has that user and date |
| `Schema.DoneDatesFrom` | server.js:157-159 | a date is in the set iff it is on or after `from` and the user has a completion row for it |
| `Schema.UniqueMeansAtMostOne` | server.js:32-38 | under the uniqueness invariant, a (user, date) pair has at most one completion row |
| `Daily.DayIndex` | server.js:123 | the index is in [0, n) and is the remainder of the day of the month by n |
| `Daily.TaskOfDay` | server.js:115-124 | the task is an element of the fixed six-task list, at the day's index |
| `Daily.TaskPeriodic` | server.js:123 | days six apart get the same task |
| `Daily.EveryTaskIsScheduled` | server.js:115-124 | every task of the list is the task of some day of the month |
| `Daily.TipOfDay` | server.js:168-174 | the fallback "Reduce, reuse, recycle." when the read fails or the table is empty, else the tip of the row at the day's index |
| `Daily.SeedRows` | server.js:55-65 | the seven catalog tips in order with ids 1 to 7 |
| `Daily.Seeded` | server.js:53-67 | the table changes iff the count succeeds on an empty table, and then it holds exactly the catalog |
| `Daily.SeedingIdempotent` | server.js:53-54 | seeding after a successful seeding changes nothing |
| `Daily.SeededTipOfDay` | server.js:168-174 | on a freshly seeded table the tip of the day is catalog entry day mod 7, never the fallback |
| `Streak.DaysParam` | server.js:149 | an absent `days` parameter means 14 |
| `Streak.WindowLength` | server.js:152 | the countdown loop runs max(DAYS, 0) times |
| `Streak.Window` | server.js:151-156 | n labels, consecutive days, strictly ascending, the last one today |
| `Streak.Flags` | server.js:159-160 | one flag per label: 1 iff the label is in the done set, else 0 |
| `Streak.FlagsMeanCompletion` | server.js:157-160 | over an ascending window, the `date >= first label` filter loses no day: flag k is 1 iff the user completed label k |
| `Rewards.Insert` | server.js:180 | inserting into a newest-first list keeps it newest-first and adds exactly that row |
| `Rewards.SortNewestFirst` | server.js:180 | the result is newest-first and a permutation of the input |
| `Schema.RowsOf` | server.js:180 | a row is returned iff it is in the table and owned by the user |
| `Rewards.Listed` | server.js:180 | newest-first and a permutation of that user's rows: exactly the rows of that user, each as often as in the table |
| `Handlers.SessionUser` | server.js:73-76 | a request passes the gate iff the session holds a non-zero user id, and then with that id |
| `Handlers.Signup` | server.js:79-88 | missing field: 400 "Missing fields" and nothing changes; taken name or insert error: 400 "Username already exists" and nothing changes; success iff neither, and then one user row is appended and the session holds its id |
| `Handlers.SignupKeepsUsersWellFormed` | server.js:26-30 | signup keeps user ids sequential and usernames unique |
| `Handlers.Login` | server.js:91-102 | success iff fields present, query succeeds and some user has that name and hash(password); the session then holds that user's id; an unknown name and a wrong password both give the same 400 "Invalid username or password"; users never change |
| `Handlers.Logout` | server.js:105-110 | success clears the session; a failed destroy answers 500 and keeps it |
| `Handlers.MeView` | server.js:187-193 | `loggedIn: true` iff the session passes the gate, the read succeeds and the user exists, and then with that user's id and name; otherwise `loggedIn: false` |
| `Handlers.TaskView` | server.js:113-126 | 401 without a session user, otherwise the task of the day from the fixed list |
| `Handlers.Views` | server.js:182 | one `{text, date}` entry per row, in order |
| `Handlers.UserRewards` | server.js:178-184 | as many entries as the user has rewards, newest first |
| `Handlers.UserRewardsAreTheUsers` | server.js:180-182 | each listed entry is one of the user's rewards, and every reward of the user is listed |
| `Handlers.RewardsView` | server.js:178-184 | 401 without a session user, 500 on a failed query, else the user's reward list |
| `Handlers.RewardText` | server.js:137 | the reward text ends with the date |
| `Handlers.Claim` | server.js:129-144 | 401 with nothing changed without a session user; 500 on a failed lookup; "Already completed today" with nothing changed when a completion row exists; otherwise one task row (user, today, done=1) and one reward row with the dated text appended, or the partial effect of a failed insert |
| `Claims.ClaimKeepsUniqueCompletions` | server.js:132-136 | if at most one completion per (user, date) holds before a claim, it holds after |
| `Claims.ClaimKeepsKeys` | server.js:135-138 | a claim only appends, at most one row per table, with the next ids |
| `Claims.ClaimTouchesOnlyClaimant` | server.js:135-138 | no other user's task or reward rows change |
| `Claims.ClaimTwiceIsClaimOnce` | server.js:129-144 | a second claim on the same day changes nothing and says "Already completed today"; the user has exactly one completion row for the day and at most one new reward |
| `Claims.RewardLostAfterFailedInsert` | server.js:135-141 | after a failed reward insert the completion row stays, and a retry that day answers "Already completed today" without a reward |
| `Server.App.constructor` | server.js:24-52 | a new database: all tables empty, no session |
| `Server.App.Seed` | server.js:53-67 | the loop leaves the tips table equal to `Seeded` of the old table, keeping the store well formed |
| `Server.App.Signup` | server.js:79-88 | users, session and response equal `Handlers.Signup` on the old state |
| `Server.App.Login` | server.js:91-102 | session and response equal `Handlers.Login` on the old state |
| `Server.App.Logout` | server.js:105-110 | session and response equal `Handlers.Logout` on the old session, keeping the store well formed |
| `Server.App.ClaimTask` | server.js:129-144 | tasks, rewards and response equal `Handlers.Claim` on the old tables |
| `Server.App.StreakView` | server.js:147-163 | 401 without a session user, 500 on a failed query, else labels are the window of the last DAYS days ending today and value k is 1 iff the user completed label k, else 0 |
| `Trace.Step` | server.js:78-144 | every state-changing request keeps the store well formed |
| `Trace.Run` | server.js:78-144 | a sequence of requests keeps the store well formed |
| `Trace.StepKeepsInvariant` | server.js:132-136 | one request keeps the store invariants, unique completions, and a session that names an existing user |
| `Trace.RunKeepsInvariant` | server.js:32-38 | any sequence of requests keeps the same invariant |
| `Trace.Booted` | server.js:53-67 | after startup on a new database the store is well formed, there is no session, and the tips table is empty iff the count query failed |
| `Trace.ReachableWorlds` | server.js:129-144 | from a new database seeded once at startup, after any sequence of requests, each (user, date) has at most one completion row, and `/api/me` reports logged in iff there is a session |
| `Trace.SignupLogoutLogin` | server.js:79-110 | signup, logout, then login with the same credentials all succeed, and the login restores the new user's session |
| `Trace.LoginThenMe` | server.js:187-193 | after a successful login `/api/me` reports that user |
| `Trace.LogoutThenGated` | server.js:73-76 | after a logout, a claim answers 401 and changes nothing, and the task and rewards endpoints answer 401 |

## Left out

- HTTP routing, JSON parsing, static files, the catch-all index page and the listening port (server.js:12-22, 196-201) are not modelled.
- Session cookies, the session secret and the 7-day maxAge are not modelled. The session is one client's optional user id. Concurrent clients with separate sessions are not modelled.
- bcrypt is replaced by the injected function `hash`; its salt and its cost factor are not modelled. `compare` is modelled as `hash(password) == stored`.
- Dates are integer day numbers. `Date`, `getDate()` and `toISOString()` are not modelled. The local-versus-UTC gap between the claim date and the streak labels is not modelled either. The ISO rendering used in the reward text is the injected `isoDate`. The streak labels are day numbers, not `YYYY-MM-DD` strings.
- The `days` query string is taken as already parsed (`Option<int>`). `parseInt` returning NaN is not modelled; NaN would behave like a non-positive count: no labels. Neither is an empty `?days=` (14 in the source, through `'' || '14'`) nor `parseInt` reading a leading number (`"7x"` gives 7).
- `created_at` is an abstract integer timestamp passed to the claim.
- Rewards.SortNewestFirst: among rewards with equal timestamps it keeps table order; SQLite leaves that order open.
- SQLite I/O, asynchrony and callbacks are not modelled. Each store failure is a flag argument of the handler.
- The check-then-insert race between concurrent claims is not modelled. The model runs requests one at a time.
- `CREATE TABLE IF NOT EXISTS` is modelled only as the empty tables of a new database (`Server.App.constructor`, `Trace.Start`). `Trace` seeds the tips once, before the first request (`Trace.Booted`); a restart on an existing database is not modelled.
- Request fields are `Option<string>`; `Present` follows JavaScript truthiness for strings only. Non-string JSON values are not modelled.
- script.js is DOM code and `fetch` calls only; it is not part of this model.
