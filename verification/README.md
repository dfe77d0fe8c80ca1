# Game lobby session engine, in Dafny

This project models the round engine of a number-guessing game server. A round
opens, players join it and each picks a number from 1 to 10, and a timer closes
the round. At close a winning number is drawn, and every player whose pick
matches gets one win credited.

The repository holds two revisions of the same server logic, and each one is
modelled as its own module:

- `dist/app.js` (modules `DistSession`, `DistLifecycle`): a player joins and
  picks in separate requests. The server restarts 10 seconds after each close.
  It also serves `/session/status` and `/session/completed-results`.
- `src/app.ts` (modules `SrcSession`, `SrcLifecycle`): a player joins and picks
  in one request. The single round is never restarted.

Both revisions keep the global `currentSession` record. The model turns it into
an immutable `Session` value, and every handler becomes a pure function:

- a mutating handler returns `Ok(newSession)` or the `GameError` it answers with;
- a read-only handler returns its JSON body as a datatype.

Some inputs become explicit parameters:

- `Date.now()` becomes `now`, in milliseconds.
- `Math.random()` becomes either a sample `u` in [0, 1) (`GameRules.DrawWinningNumber`)
  or the drawn number itself.

The `setTimeout` callbacks become explicit events of a `Server` state machine.
The server holds the session plus the pending timer. Its events are `Step`
(one event) and `Run` (a list of events).

Shared modules:

- `Outcomes` holds `Option` (JavaScript `null`) and `Result`.
- `Rounds` holds the session record, generic in the player entry. It also holds
  `startSession`, the load-time start and the `/session` view, which are the same in both revisions.
- `Seqs` models the array methods `filter` and `map`, plus counting.
- `GameRules` holds the constants (20 s rounds, 10 s restart delay, picks 1..10),
  the error kinds, pick validation, the clamped seconds countdown and the draw.
- `Revisions` relates the two revisions to each other.

Some JavaScript behaviour is modelled exactly:

- `Math.floor(x / 1000)` is Dafny's `/` by a positive divisor, which rounds down in the same way.
- A `null` `endsAt` subtracts as 0.
- `player?.pick !== null` is true for a caller who never joined.
- `player?.pick || null` and the truthiness test on `nextSessionStart` are kept as written.
- The winners filter compares with `===`. In `dist/app.js`, a winning number of
  `null` therefore selects the players who have not picked yet.

Neither source file has a `leave` operation, a round identifier, a history of
past rounds, or named phases beyond the `isActive` flag, so the model has none
of them either. The model follows the code: `/session/results` is served only while a
round is open, and only `dist/app.js` has `/session/completed-results`.

## Model

| member | source | states |
|---|---|---|
| Seqs.Filter | dist/app.js:61 | every kept element passes the test and comes from the input, every passing element is kept, and the result is an order-preserving subsequence; Seqs.FilterKeepsMultiplicity adds that repeats are kept as often as they occur |
| Seqs.FilterAppend | dist/app.js:61 | `filter` decides each element on its own: filtering a concatenation is the concatenation of the filtered parts |
| Seqs.FilterKeepsMultiplicity | dist/app.js:61 | `filter` keeps each passing value as many times as it occurs in the input, repeats included, and never adds an element |
| Seqs.Project | dist/app.js:62-63 | the list of usernames to credit has one entry per winner, in the same order |
| Seqs.KeysOfFilterCountedOnce | dist/app.js:61-64 | with unique keys, each kept element's key is listed exactly once and no other key is listed |
| Seqs.FilterThenProject | src/app.ts:76-78 | filtering commutes with a projection that preserves the test |
| GameRules.SecondsUntil | dist/app.js:119 | the countdown is the whole number of seconds left, clamped at 0; it is 0 exactly when less than one second remains |
| GameRules.SecondsUntilNeverIncreases | dist/app.js:164-166 | the countdown never increases as the clock advances |
| GameRules.SecondsUntilGrowsWithTarget | dist/app.js:171 | a later target never gives a shorter countdown |
| GameRules.TimeLeft | dist/app.js:118-120 | `timeLeft` is 0 for a closed round; for an open one it counts the seconds left to `endsAt` |
| GameRules.TimeLeftNeverIncreases | src/app.ts:138-140 | `timeLeft` never increases as time passes |
| GameRules.DrawWinningNumber | dist/app.js:59 | the draw is in [1,10], and number k is drawn exactly when the sample lies in the k-th tenth of [0,1) |
| GameRules.EveryPickCanWin | src/app.ts:73 | every number from 1 to 10 can be drawn |
| Rounds.Initial | dist/app.js:20-26 | before the first start, the session is inactive, with no players, no end time and no winning number |
| Rounds.Start | dist/app.js:48-56 | a started round is open, has no players and no winning number, and ends `duration*1000` ms after it starts |
| Rounds.Load | src/app.ts:89-91 | at load the inactive initial session is replaced by a 20-second round |
| Rounds.StartShowsFullDuration | dist/app.js:53 | right after a start, `timeLeft` shows the full duration in seconds |
| Rounds.Overview | src/app.ts:135-143 | `/session` reports the active flag, the player count, and a non-negative `timeLeft` that is 0 when the round is closed and otherwise counts down to `endsAt` |
| DistSession.Find | dist/app.js:146 | `find` returns the first player with the username, and none exactly when nobody has joined under it |
| DistSession.FindIsTheOnlyMatch | dist/app.js:158 | when usernames are unique, the player found is the only one with that name |
| DistSession.Join | dist/app.js:124-134 | join is refused with "no active session" exactly when the round is closed, and with "already joined" exactly when the username is present; on success exactly one `(username, null)` is appended and nothing else changes |
| DistSession.JoinPreservesPlayers | dist/app.js:129-132 | a successful join keeps usernames unique and picks in range, and the new player is found at the end |
| DistSession.SecondJoinRefused | dist/app.js:129-131 | a second join by the same user is refused with "already joined" |
| DistSession.Pick | dist/app.js:135-155 | the checks run in order (closed round, invalid pick, not joined, already picked), each condition stated exactly, and no other refusal exists, so a pick passing all four succeeds; a successful pick changes only the caller's entry, from no pick to the value, and keeps the length |
| DistSession.PickPreservesPlayers | dist/app.js:150-153 | a recorded pick is never overwritten; usernames stay unique and picks stay in [1,10] |
| DistSession.SecondPickRefused | dist/app.js:150-152 | a second valid pick by the same user is refused with "already picked" |
| DistSession.Close | dist/app.js:57-64 | close deactivates the round and sets the winning number to the draw, leaving players and times alone; the winners are exactly the players whose pick equals the draw, in join order; one credit is issued per winner (the winners are stated as values in order; since reachable player lists repeat no username, this is exact, and Seqs.FilterKeepsMultiplicity gives the multiplicities for any list) |
| DistSession.NoPickNeverWins | dist/app.js:61 | a player without a pick never wins |
| DistSession.CloseCreditsEachWinnerOnce | dist/app.js:62-64 | with unique usernames, every matching player is credited exactly once and nobody else is credited |
| DistSession.Restart | dist/app.js:65-67 | the restart opens a fresh empty round that starts at the restart time and ends 20000 ms later |
| DistSession.Status | dist/app.js:156-173 | `hasJoined` holds exactly when the user is present; a caller who never joined gets `hasPicked` true and no pick; with unique usernames `hasPicked` is false exactly for a joined player without a pick; a joined caller's reported pick is their recorded pick (a recorded 0 would read as null, through `|| null`); `nextSessionStart` is null while open, and otherwise counts down to `(endsAt or 0) + 10000`, except that it is null when that sum is 0 |
| DistSession.Results | dist/app.js:174-183 | `/session/results` is refused exactly when the round is closed; otherwise it reports the winning number, all players, and the players whose pick `===` the winning number, in join order (the winners are stated as values in order; since reachable player lists repeat no username, this is exact, and Seqs.FilterKeepsMultiplicity gives the multiplicities for any list) |
| DistSession.CompletedResults | dist/app.js:184-193 | `/session/completed-results` is refused exactly when no winning number exists; otherwise it reports the matching players, all of whom picked (the winners are stated as values in order; since reachable player lists repeat no username, this is exact, and Seqs.FilterKeepsMultiplicity gives the multiplicities for any list) |
| DistSession.OpenResultsListNonPickers | dist/app.js:174-182 | while a round is open with no number drawn, `/session/results` lists exactly the players who have not picked as winners |
| DistLifecycle.Boot | dist/app.js:68-72 | at load the first round opens empty and its close is due 20000 ms later |
| DistLifecycle.Step | dist/app.js:57-155 | a refused join or pick, or a timer that is not pending, leaves the server unchanged; an accepted request changes only the session, to the handler's result; a close applies the close body and schedules the restart 10000 ms after it finishes; a restart starts a new round and schedules its close 20000 ms later |
| DistLifecycle.BootValid | dist/app.js:48-72 | the server right after load satisfies the invariant: unique usernames, picks in range, the close pending exactly while the round is open, and a winning number drawn exactly when it is closed |
| DistLifecycle.StepPreservesValid | dist/app.js:57-68 | every request, close and restart keeps that invariant |
| DistLifecycle.RunPreservesValid | dist/app.js:124-155 | any sequence of events keeps that invariant |
| DistLifecycle.ResultsViewsAlternate | dist/app.js:174-193 | in a reachable state, `/session/results` is refused exactly when `/session/completed-results` is served |
| DistLifecycle.RequestKeepsRecordedPicks | dist/app.js:150-153 | no request changes a player whose pick is recorded |
| DistLifecycle.NextStartIsALowerBound | dist/app.js:159-171 | the `nextSessionStart` countdown never exceeds the real wait for the restart timer |
| DistLifecycle.RestartOpensEmptyRound | dist/app.js:65-67 | after a close, the restart opens an empty round and schedules its close 20 s later |
| DistLifecycle.JoinThenPickAppends | dist/app.js:124-155 | a user not yet in the open round who joins and then picks n ends up as one new entry (user, n) at the end of the list |
| DistLifecycle.ScenarioRequests | dist/app.js:124-155 | in a freshly opened round, two users join and pick 7, and a third joins without picking; the player list is exactly these entries, in join order |
| DistLifecycle.ScenarioClose | dist/app.js:57-64 | drawing 7 in that round gives winners ann then bob, each credited once; the player without a pick does not win |
| DistLifecycle.PickBeforeJoinRefused | dist/app.js:146-149 | a pick before joining is refused with "not joined" and the server is unchanged |
| SrcSession.Join | src/app.ts:145-167 | the checks run in order (closed round, invalid pick, duplicate username), each condition stated exactly, and no other refusal exists, so a request passing all three succeeds; on success exactly one `(username, pick)` with pick in [1,10] is appended |
| SrcSession.JoinPreservesPlayers | src/app.ts:159-166 | a successful join keeps usernames unique and every stored pick in [1,10] |
| SrcSession.SecondJoinRefused | src/app.ts:159-163 | a second join by the same user is refused, even with a different pick |
| SrcSession.Close | src/app.ts:70-86 | close deactivates the round and sets the winning number to the draw, leaving players and times alone; the winners are exactly the players whose pick equals the draw, in join order; one credit is issued per winner (the winners are stated as values in order; since reachable player lists repeat no username, this is exact, and Seqs.FilterKeepsMultiplicity gives the multiplicities for any list) |
| SrcSession.CloseCreditsEachWinnerOnce | src/app.ts:76-85 | with unique usernames, every matching player is credited exactly once and nobody else is credited |
| SrcSession.Results | src/app.ts:169-181 | `/session/results` is refused exactly when the round is closed; the winners it serves are the matching players in join order, and none when no number is drawn (the winners are stated as values in order; since reachable player lists repeat no username, this is exact, and Seqs.FilterKeepsMultiplicity gives the multiplicities for any list) |
| SrcLifecycle.Boot | src/app.ts:89-91 | at load the only round opens empty, with its close pending |
| SrcLifecycle.Step | src/app.ts:70-167 | a refused join, or a close that cannot fire, leaves the server unchanged; an accepted join changes only the session, to the handler's result; a close applies the close body and leaves nothing pending; a closed server with no pending close never changes |
| SrcLifecycle.BootValid | src/app.ts:60-91 | the server right after load satisfies the invariant: unique usernames, picks in range, the close pending exactly while the round is open, and a number drawn exactly when it is closed |
| SrcLifecycle.StepPreservesValid | src/app.ts:70-86 | every join and close keeps that invariant |
| SrcLifecycle.RunPreservesValid | src/app.ts:145-167 | any sequence of events keeps that invariant |
| SrcLifecycle.ClosedStaysClosed | src/app.ts:70-86 | once the round is closed, no sequence of events changes the server: it is never reopened |
| SrcLifecycle.ServedResultsHaveNoWinners | src/app.ts:169-181 | in a reachable state, whenever `/session/results` is served its winner list is empty |
| Revisions.JoinedAgrees | src/app.ts:159 | the two revisions' "already joined" tests agree on corresponding sessions |
| Revisions.JoinWithPickIsJoinThenPick | src/app.ts:145-167 | a join-with-pick succeeds exactly when the other revision's join followed by a pick succeeds, and both reach the same session |
| Revisions.InvalidPickReportedFirst | src/app.ts:150-163 | for a joined player sending an invalid pick, this revision reports the invalid pick while the other reports "already joined" |
| Revisions.CloseAgrees | src/app.ts:70-85 | both revisions produce the same closed session, the same winners and the same credits |

## Left out

- Registration, login, the leaderboard and the Mongo `User` model: database CRUD.
  A win credit is modelled only as the list of usernames to increment.
- JWT signing and verification: the caller's username is a given string.
- Express routing, CORS, body parsing, `listen` and the `/` route: transport plumbing.
- `config/db` connection code and `process.exit`: I/O.
- `setTimeout` scheduling, `await` interleavings and the race between requests and the close timer:
  each timer firing is one atomic `Step`. A close in `dist/app.js` carries the clock time at which its
  crediting loop finished, and the restart becomes due 10000 ms after that time.
- Failed or slow win-count updates: crediting is modelled as the list of usernames to increment, and every update is assumed
  to succeed. In `dist/app.js` a rejected `await User.updateOne` ends the close callback before the restart
  `setTimeout` is reached, so no new round is ever started; the model's close always schedules the restart.
- Non-integer picks: JavaScript accepts any number in [1,10], such as 3.5. Picks are modelled as integers,
  and a request body's pick is either an integer or not a number. A JSON body cannot carry NaN.
  It can carry Infinity, because an overflowing literal such as `1e400` parses to Infinity (and `-1e400` to
  -Infinity). The range check refuses both, so they are modelled as a number outside [1,10], with the same refusal.
- GameRules.DrawWinningNumber: the sample is an exact real, whereas `Math.random() * 10` is a
  double-precision product that rounds. At the tenth boundaries the two can disagree: for the double
  nearest 0.3, which is just below 3/10, the product rounds to exactly 3.0 and the server draws 4, while the
  model draws 3. The range [1,10] and the fact that every number can be drawn are unaffected.
- `startSession`'s duration argument is always the default in both files. `Start` takes it as a parameter,
  and the lifecycle invariants fix it at 20 s.
- `leave`, round identifiers and a history of past rounds: neither source file implements them.

## Findings

| source | as written | input that shows it | evidently intended | confidence | as-written member | corrected member |
|---|---|---|---|---|---|---|
| dist/app.js:174-182 | `/session/results` answers only while a round is open. No number has been drawn then, so `pick === null` selects the players who have not picked as "winners" | an open round in which a joined player has not picked: that player is listed as a winner | report a closed round's outcome with real winners, as `/session/completed-results` later does | medium, not executed | DistSession.OpenResultsListNonPickers | DistSession.CompletedResults |
