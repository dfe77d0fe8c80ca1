/** The round cycle of `src/app.ts` with its one timer made explicit: the server
    is the current session plus whether the close scheduled by `startSession` is
    still pending. No restart is ever scheduled. */
module SrcLifecycle {
  import opened Outcomes
  import opened GameRules
  import opened Rounds
  import opened SrcSession

  datatype Server = Server(session: Session, closePending: bool)

  /** Something that can happen to the server. */
  datatype Event =
    | JoinRequest(user: string, pick: PickInput)
    | CloseFires(drawn: int)

  /** Module load at clock time `now`: the only round starts and its close is scheduled. */
  function Boot(now: int): (srv: Server)
    ensures srv.session.isActive && srv.session.players == [] && srv.closePending
  {
    Server(Load<Player>(now), true)
  }

  /** The close can only fire while pending, with a draw in range. */
  predicate CanHappen(srv: Server, e: Event) {
    match e
    case CloseFires(drawn) => srv.closePending && MinPick <= drawn <= MaxPick
    case JoinRequest(_, _) => true
  }

  /** One atomic step. A refused request, or a close that cannot fire, leaves the
      server as it is. */
  function Step(srv: Server, e: Event): (r: Server)
    ensures !CanHappen(srv, e) ==> r == srv
    ensures !srv.session.isActive && !srv.closePending ==> r == srv
    ensures e.JoinRequest? && Join(srv.session, e.user, e.pick).Err? ==> r == srv
    ensures e.JoinRequest? && Join(srv.session, e.user, e.pick).Ok? ==>
              r == srv.(session := Join(srv.session, e.user, e.pick).value)
    ensures e.CloseFires? && CanHappen(srv, e) ==>
              r == Server(Close(srv.session, e.drawn).session, false)
  {
    if !CanHappen(srv, e) then srv
    else match e
      case JoinRequest(u, p) =>
        (match Join(srv.session, u, p)
         case Ok(s) => srv.(session := s)
         case Err(_) => srv)
      case CloseFires(drawn) => Server(Close(srv.session, drawn).session, false)
  }

  /** Applying events in order. */
  function Run(srv: Server, es: seq<Event>): Server
    decreases |es|
  {
    if |es| == 0 then srv else Run(Step(srv, es[0]), es[1..])
  }

  /** What holds of every server reachable from `Boot`. */
  ghost predicate Valid(srv: Server) {
    var s := srv.session;
    && UniqueUsernames(s.players)
    && PicksInRange(s.players)
    && s.startedAt.Some? && s.endsAt.Some?
    && s.endsAt.value == s.startedAt.value + DefaultDurationSeconds * MsPerSecond
    && (s.isActive <==> srv.closePending)
    && (s.isActive <==> s.winningNumber.None?)
    && (!s.isActive ==> MinPick <= s.winningNumber.value <= MaxPick)
  }

  lemma BootValid(now: int)
    ensures Valid(Boot(now))
  {
  }

  /** Every step keeps the server valid. */
  lemma StepPreservesValid(srv: Server, e: Event)
    requires Valid(srv)
    ensures Valid(Step(srv, e))
  {
    if CanHappen(srv, e) && e.JoinRequest? && Join(srv.session, e.user, e.pick).Ok? {
      JoinPreservesPlayers(srv.session, e.user, e.pick);
    }
  }

  lemma {:induction false} RunPreservesValid(srv: Server, es: seq<Event>)
    requires Valid(srv)
    ensures Valid(Run(srv, es))
    decreases |es|
  {
    if |es| > 0 {
      StepPreservesValid(srv, es[0]);
      RunPreservesValid(Step(srv, es[0]), es[1..]);
    }
  }

  /** Once a round is closed nothing reopens it: after any sequence of events
      the session is still inactive and its players and winning number are frozen. */
  lemma {:induction false} ClosedStaysClosed(srv: Server, es: seq<Event>)
    requires Valid(srv) && !srv.session.isActive
    ensures Run(srv, es) == srv
    decreases |es|
  {
    if |es| > 0 {
      assert Step(srv, es[0]) == srv;
      ClosedStaysClosed(srv, es[1..]);
    }
  }

  /** In every reachable state `/session/results` either refuses or reports no
      winners. */
  lemma ServedResultsHaveNoWinners(srv: Server)
    requires Valid(srv)
    ensures Results(srv.session).Ok? ==> Results(srv.session).value.winners == []
  {
  }
}
