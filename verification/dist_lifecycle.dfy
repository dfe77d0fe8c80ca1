/** The round cycle of `dist/app.js` with its timers made explicit: the server is
    the current session plus the one pending `setTimeout`, and every request or
    timer firing is an atomic step. */
module DistLifecycle {
  import opened Outcomes
  import opened Seqs
  import opened GameRules
  import opened Rounds
  import opened DistSession

  /** The pending timer: the close scheduled by `startSession`, or the restart
      scheduled by the close. `due` is the earliest clock time it can fire. */
  datatype Timer = CloseDue(due: int) | RestartDue(due: int)

  datatype Server = Server(session: Session, timer: Timer)

  /** Something that can happen to the server. A close carries the clock time at
      which its crediting loop finished (when the restart is scheduled) and the
      drawn winning number. */
  datatype Event =
    | JoinRequest(user: string)
    | PickRequest(user: string, pick: PickInput)
    | CloseFires(at: int, drawn: int)
    | RestartFires(at: int)

  /** Module load at clock time `now`: the first round starts and its close is scheduled. */
  function Boot(now: int): (srv: Server)
    ensures srv.session.isActive && srv.session.players == []
    ensures srv.timer == CloseDue(now + DefaultDurationSeconds * MsPerSecond)
  {
    var s := Load<Player>(now);
    Server(s, CloseDue(s.endsAt.value))
  }

  /** A timer event can only happen when that timer is pending and due, with a
      draw in range; requests can always arrive. */
  predicate CanHappen(srv: Server, e: Event) {
    match e
    case CloseFires(at, drawn) =>
      srv.timer.CloseDue? && at >= srv.timer.due && MinPick <= drawn <= MaxPick
    case RestartFires(at) => srv.timer.RestartDue? && at >= srv.timer.due
    case _ => true
  }

  /** One atomic step. A refused request, or a timer event that cannot happen,
      leaves the server as it is. */
  function Step(srv: Server, e: Event): (r: Server)
    ensures !CanHappen(srv, e) ==> r == srv
    ensures e.JoinRequest? || e.PickRequest? ==> r.timer == srv.timer
    ensures e.JoinRequest? && Join(srv.session, e.user).Err? ==> r == srv
    ensures e.JoinRequest? && Join(srv.session, e.user).Ok? ==> r.session == Join(srv.session, e.user).value
    ensures e.PickRequest? && Pick(srv.session, e.user, e.pick).Err? ==> r == srv
    ensures e.PickRequest? && Pick(srv.session, e.user, e.pick).Ok? ==>
              r.session == Pick(srv.session, e.user, e.pick).value
    ensures e.CloseFires? && CanHappen(srv, e) ==>
              r.session == Close(srv.session, e.drawn).session && r.timer == RestartDue(e.at + RestartDelayMs)
    ensures e.RestartFires? && CanHappen(srv, e) ==>
              r.session == Restart(srv.session, e.at)
              && r.timer == CloseDue(e.at + DefaultDurationSeconds * MsPerSecond)
  {
    if !CanHappen(srv, e) then srv
    else match e
      case JoinRequest(u) =>
        (match Join(srv.session, u)
         case Ok(s) => srv.(session := s)
         case Err(_) => srv)
      case PickRequest(u, p) =>
        (match Pick(srv.session, u, p)
         case Ok(s) => srv.(session := s)
         case Err(_) => srv)
      case CloseFires(at, drawn) =>
        Server(Close(srv.session, drawn).session, RestartDue(at + RestartDelayMs))
      case RestartFires(at) =>
        var s := Restart(srv.session, at);
        Server(s, CloseDue(s.endsAt.value))
  }

  /** Applying events in order. */
  function Run(srv: Server, es: seq<Event>): Server
    decreases |es|
  {
    if |es| == 0 then srv else Run(Step(srv, es[0]), es[1..])
  }

  /** What holds of every server reachable from `Boot`. */
  ghost predicate Valid(srv: Server) {
    var s := srv.session;
    && UniqueUsernames(s.players)
    && PicksInRange(s.players)
    && s.startedAt.Some? && s.endsAt.Some?
    && s.endsAt.value == s.startedAt.value + DefaultDurationSeconds * MsPerSecond
    && (s.isActive <==> srv.timer.CloseDue?)
    && (s.isActive <==> s.winningNumber.None?)
    && (s.isActive ==> srv.timer.due == s.endsAt.value)
    && (!s.isActive ==> MinPick <= s.winningNumber.value <= MaxPick
                        && srv.timer.due >= s.endsAt.value + RestartDelayMs)
  }

  lemma BootValid(now: int)
    ensures Valid(Boot(now))
  {
  }

  /** Every step keeps the server valid. */
  lemma StepPreservesValid(srv: Server, e: Event)
    requires Valid(srv)
    ensures Valid(Step(srv, e))
  {
    if CanHappen(srv, e) {
      match e
      case JoinRequest(u) =>
        if Join(srv.session, u).Ok? {
          JoinPreservesPlayers(srv.session, u);
        }
      case PickRequest(u, p) =>
        if Pick(srv.session, u, p).Ok? {
          PickPreservesPlayers(srv.session, u, p);
        }
      case CloseFires(at, drawn) =>
      case RestartFires(at) =>
    }
  }

  lemma {:induction false} RunPreservesValid(srv: Server, es: seq<Event>)
    requires Valid(srv)
    ensures Valid(Run(srv, es))
    decreases |es|
  {
    if |es| > 0 {
      StepPreservesValid(srv, es[0]);
      RunPreservesValid(Step(srv, es[0]), es[1..]);
    }
  }

  /** In every reachable state `/session/results` is refused exactly when
      `/session/completed-results` is served: one needs an open round, the other
      a drawn number, and a round has a drawn number exactly when it is closed. */
  lemma ResultsViewsAlternate(srv: Server)
    requires Valid(srv)
    ensures Results(srv.session).Err? <==> CompletedResults(srv.session).Ok?
  {
  }

  /** In every reachable state a recorded pick survives any later request: only
      the close or restart timers change the round's picks. */
  lemma RequestKeepsRecordedPicks(srv: Server, e: Event, i: int)
    requires Valid(srv)
    requires e.JoinRequest? || e.PickRequest?
    requires 0 <= i < |srv.session.players| && srv.session.players[i].pick.Some?
    ensures i < |Step(srv, e).session.players|
    ensures Step(srv, e).session.players[i] == srv.session.players[i]
  {
    if e.PickRequest? && Pick(srv.session, e.user, e.pick).Ok? {
      PickPreservesPlayers(srv.session, e.user, e.pick);
    }
  }

  /** The status view's `nextSessionStart` never overstates the wait: the
      restart timer is due no earlier than the moment it announces. */
  lemma NextStartIsALowerBound(srv: Server, u: string, now: int)
    requires Valid(srv) && !srv.session.isActive
    requires srv.session.endsAt.value + RestartDelayMs != 0
    ensures Status(srv.session, u, now).nextSessionStart.Some?
    ensures Status(srv.session, u, now).nextSessionStart.value <= SecondsUntil(srv.timer.due, now)
  {
    SecondsUntilGrowsWithTarget(srv.session.endsAt.value + RestartDelayMs, srv.timer.due, now);
  }

  /** Once a round's close has fired, the next event that reopens the server is
      its restart, which starts an empty round. */
  lemma RestartOpensEmptyRound(srv: Server, at: int)
    requires Valid(srv) && !srv.session.isActive && at >= srv.timer.due
    ensures Step(srv, RestartFires(at)).session.isActive
    ensures Step(srv, RestartFires(at)).session.players == []
    ensures Step(srv, RestartFires(at)).timer == CloseDue(at + DefaultDurationSeconds * MsPerSecond)
  {
  }

  /** Players of the scenario below after their requests. */
  const ScenarioPlayers: seq<Player> := [Player("ann", Some(7)), Player("bob", Some(7)), Player("cy", None)]

  /** A user who is not yet in the open round joins and then picks `n`: one
      entry `(u, n)` is appended. */
  lemma JoinThenPickAppends(srv: Server, u: string, n: int)
    requires srv.session.isActive && !Joined(srv.session.players, u) && MinPick <= n <= MaxPick
    ensures Step(Step(srv, JoinRequest(u)), PickRequest(u, Number(n)))
            == srv.(session := srv.session.(players := srv.session.players + [Player(u, Some(n))]))
  {
    var ps := srv.session.players;
    var s1 := Step(srv, JoinRequest(u));
    assert s1.session.players == ps + [Player(u, None)];
    assert Find(s1.session.players, u) == Some(|ps|);
    assert (ps + [Player(u, None)])[|ps| := Player(u, Some(n))] == ps + [Player(u, Some(n))];
  }

  /** In a freshly opened round, "ann" and "bob" both join and pick 7, then "cy"
      joins without picking. */
  lemma ScenarioRequests(srv: Server)
    requires srv.session.isActive && srv.session.players == []
    ensures Step(Step(Step(Step(Step(srv, JoinRequest("ann")), PickRequest("ann", Number(7))),
              JoinRequest("bob")), PickRequest("bob", Number(7))), JoinRequest("cy")).session.players
            == ScenarioPlayers
  {
    JoinThenPickAppends(srv, "ann", 7);
    var s2 := Step(Step(srv, JoinRequest("ann")), PickRequest("ann", Number(7)));
    assert s2.session.players == [Player("ann", Some(7))];
    JoinThenPickAppends(s2, "bob", 7);
    var s4 := Step(Step(s2, JoinRequest("bob")), PickRequest("bob", Number(7)));
    assert s4.session.players == ScenarioPlayers[..2];
    assert !Joined(s4.session.players, "cy");
    assert Step(s4, JoinRequest("cy")).session.players == s4.session.players + [Player("cy", None)];
  }

  /** When 7 is drawn, "ann" and "bob" win in join order, each credited once,
      and "cy", who never picked, does not win. */
  lemma ScenarioClose(s: Session)
    requires s.players == ScenarioPlayers
    ensures Close(s, 7).winners == ScenarioPlayers[..2]
    ensures Close(s, 7).credited == ["ann", "bob"]
  {
    var ps := s.players;
    var keep := (p: Player) => p.pick == Some(7);
    assert ps[1..][1..] == ps[2..];
    assert Filter(ps[2..], keep) == [];
    assert Filter(ps[1..], keep) == [ps[1]];
    assert Filter(ps, keep) == [ps[0], ps[1]];
  }

  /** A pick from a user who has not joined the open round is refused. */
  lemma PickBeforeJoinRefused(now: int, u: string)
    ensures Step(Boot(now), PickRequest(u, Number(5))) == Boot(now)
    ensures Pick(Boot(now).session, u, Number(5)) == Err(NotJoined)
  {
  }
}
