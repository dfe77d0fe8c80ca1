/** The session state machine of the compiled revision (`dist/app.js`): separate
    join and pick requests, a restart after every close, and a
    `completed-results` view. Every handler is a pure function of the current
    session; the clock is the parameter `now` (milliseconds) and the random draw
    is the parameter `drawn`. */
module DistSession {
  import opened Outcomes
  import opened Seqs
  import opened GameRules
  import opened Rounds

  /** A player of the current round; `pick` is `null` until the player picks. */
  datatype Player = Player(username: string, pick: Option<int>)

  /** The session record with this revision's player entries. */
  type Session = Round<Player>

  function Username(p: Player): string { p.username }

  /** `players.some(player => player.username === username)`. */
  predicate Joined(ps: seq<Player>, u: string) {
    exists i :: 0 <= i < |ps| && ps[i].username == u
  }

  ghost predicate UniqueUsernames(ps: seq<Player>) {
    KeysUnique(ps, Username)
  }

  /** Every recorded pick passed the handler's range check. */
  ghost predicate PicksInRange(ps: seq<Player>) {
    forall i :: 0 <= i < |ps| && ps[i].pick.Some? ==> MinPick <= ps[i].pick.value <= MaxPick
  }

  /** `players.find(p => p.username === username)`, as the index of the first match. */
  function Find(ps: seq<Player>, u: string): (r: Option<nat>)
    ensures r.None? <==> !Joined(ps, u)
    ensures r.Some? ==> r.value < |ps| && ps[r.value].username == u
    ensures r.Some? ==> forall k :: 0 <= k < r.value ==> ps[k].username != u
  {
    if |ps| == 0 then None
    else if ps[0].username == u then Some(0)
    else match Find(ps[1..], u)
      case None => None
      case Some(i) => Some(i + 1)
  }

  /** With unique usernames the first match is the only one. */
  lemma FindIsTheOnlyMatch(ps: seq<Player>, u: string, i: int)
    requires UniqueUsernames(ps)
    requires 0 <= i < |ps| && ps[i].username == u
    ensures Find(ps, u) == Some(i)
  {
    var j := Find(ps, u).value;
    assert Username(ps[j]) == Username(ps[i]);
  }

  /** `POST /session/join` by `u`. */
  function Join(s: Session, u: string): (r: Result<Session, GameError>)
    ensures r == Err(NoActiveSession) <==> !s.isActive
    ensures r == Err(AlreadyJoined) <==> s.isActive && Joined(s.players, u)
    ensures r.Err? ==> r.error in {NoActiveSession, AlreadyJoined}
    ensures r.Ok? ==>
      && |r.value.players| == |s.players| + 1
      && r.value.players[..|s.players|] == s.players
      && r.value.players[|s.players|] == Player(u, None)
      && r.value.(players := s.players) == s
  {
    if !s.isActive then Err(NoActiveSession)
    else if Joined(s.players, u) then Err(AlreadyJoined)
    else Ok(s.(players := s.players + [Player(u, None)]))
  }

  /** A successful join keeps usernames unique and recorded picks in range, and
      makes `u` a joined player who has not picked. */
  lemma JoinPreservesPlayers(s: Session, u: string)
    requires UniqueUsernames(s.players) && PicksInRange(s.players)
    requires Join(s, u).Ok?
    ensures UniqueUsernames(Join(s, u).value.players)
    ensures PicksInRange(Join(s, u).value.players)
    ensures Find(Join(s, u).value.players, u) == Some(|s.players|)
  {
    var ps := Join(s, u).value.players;
    forall i, j | 0 <= i < j < |ps|
      ensures Username(ps[i]) != Username(ps[j])
    {
      if j == |s.players| {
        assert ps[i] == s.players[i];
      } else {
        assert ps[i] == s.players[i] && ps[j] == s.players[j];
      }
    }
    FindIsTheOnlyMatch(ps, u, |s.players|);
  }

  /** Two joins by the same user in the same round: the second is refused. */
  lemma SecondJoinRefused(s: Session, u: string)
    requires Join(s, u).Ok?
    ensures Join(Join(s, u).value, u) == Err(AlreadyJoined)
  {
    var s' := Join(s, u).value;
    assert s'.players[|s.players|].username == u;
  }

  /** `POST /session/pick` by `u` with body field `pick`. The checks run in the
      order: round open, valid pick, joined, not yet picked. */
  function Pick(s: Session, u: string, pick: PickInput): (r: Result<Session, GameError>)
    ensures r == Err(NoActiveSession) <==> !s.isActive
    ensures r == Err(InvalidPick) <==> s.isActive && !IsValidPick(pick)
    ensures r == Err(NotJoined) <==> s.isActive && IsValidPick(pick) && !Joined(s.players, u)
    ensures r == Err(AlreadyPicked) <==>
      s.isActive && IsValidPick(pick) && Joined(s.players, u) && s.players[Find(s.players, u).value].pick.Some?
    ensures r.Err? ==> r.error in {NoActiveSession, InvalidPick, NotJoined, AlreadyPicked}
    ensures r.Ok? ==>
      && r.value.(players := s.players) == s
      && |r.value.players| == |s.players|
      && exists i :: 0 <= i < |s.players|
           && s.players[i] == Player(u, None)
           && r.value.players[i] == Player(u, Some(pick.n))
           && forall k :: 0 <= k < |s.players| && k != i ==> r.value.players[k] == s.players[k]
  {
    if !s.isActive then Err(NoActiveSession)
    else if !IsValidPick(pick) then Err(InvalidPick)
    else match Find(s.players, u)
      case None => Err(NotJoined)
      case Some(i) =>
        if s.players[i].pick.Some? then Err(AlreadyPicked)
        else Ok(s.(players := s.players[i := Player(u, Some(pick.n))]))
  }

  /** A successful pick never overwrites a recorded pick, keeps usernames unique
      and keeps every recorded pick in range. */
  lemma PickPreservesPlayers(s: Session, u: string, pick: PickInput)
    requires UniqueUsernames(s.players) && PicksInRange(s.players)
    requires Pick(s, u, pick).Ok?
    ensures forall k :: 0 <= k < |s.players| && s.players[k].pick.Some? ==>
              Pick(s, u, pick).value.players[k] == s.players[k]
    ensures UniqueUsernames(Pick(s, u, pick).value.players)
    ensures PicksInRange(Pick(s, u, pick).value.players)
  {
    var ps := Pick(s, u, pick).value.players;
    var i := Find(s.players, u).value;
    assert ps == s.players[i := Player(u, Some(pick.n))];
    forall a, b | 0 <= a < b < |ps|
      ensures Username(ps[a]) != Username(ps[b])
    {
      assert Username(s.players[a]) != Username(s.players[b]);
    }
  }

  /** A second pick by the same user is refused and the first one stays. */
  lemma SecondPickRefused(s: Session, u: string, first: PickInput, second: PickInput)
    requires UniqueUsernames(s.players)
    requires Pick(s, u, first).Ok? && IsValidPick(second)
    ensures Pick(Pick(s, u, first).value, u, second) == Err(AlreadyPicked)
  {
    var s' := Pick(s, u, first).value;
    var i := Find(s.players, u).value;
    assert s'.players == s.players[i := Player(u, Some(first.n))];
    assert UniqueUsernames(s'.players) by {
      forall a, b | 0 <= a < b < |s'.players|
        ensures Username(s'.players[a]) != Username(s'.players[b])
      {
        assert Username(s.players[a]) != Username(s.players[b]);
      }
    }
    FindIsTheOnlyMatch(s'.players, u, i);
  }

  /** The outcome of the close timer: the closed session, the players whose pick
      matched, and the usernames whose win count is incremented, one per update. */
  datatype Resolution = Resolution(session: Session, winners: seq<Player>, credited: seq<string>)

  /** The winners filter `players.filter(player => player.pick === winningNumber)`;
      `null === null` holds, so an absent winning number selects the players
      without a pick. */
  function Winners(ps: seq<Player>, w: Option<int>): seq<Player>
  {
    Filter(ps, (p: Player) => p.pick == w)
  }

  /** The close timer body with winning number `drawn`. */
  function Close(s: Session, drawn: int): (r: Resolution)
    ensures !r.session.isActive && r.session.winningNumber == Some(drawn)
    ensures r.session.(isActive := s.isActive, winningNumber := s.winningNumber) == s
    ensures forall i :: 0 <= i < |r.winners| ==> r.winners[i].pick == Some(drawn) && r.winners[i] in s.players
    ensures forall i :: 0 <= i < |s.players| && s.players[i].pick == Some(drawn) ==> s.players[i] in r.winners
    ensures SubsequenceOf(r.winners, s.players)
    ensures |r.credited| == |r.winners|
    ensures forall i :: 0 <= i < |r.winners| ==> r.credited[i] == r.winners[i].username
  {
    var closed := s.(isActive := false, winningNumber := Some(drawn));
    var winners := Winners(closed.players, Some(drawn));
    Resolution(closed, winners, Project(winners, Username))
  }

  /** A player without a pick never wins. */
  lemma NoPickNeverWins(s: Session, drawn: int, p: Player)
    requires p in s.players && p.pick.None?
    ensures p !in Close(s, drawn).winners
  {
  }

  /** With unique usernames, close increments the win count of each matching
      player exactly once and of nobody else. */
  lemma CloseCreditsEachWinnerOnce(s: Session, drawn: int, u: string)
    requires UniqueUsernames(s.players)
    ensures Count(Close(s, drawn).credited, u)
            == (if exists i :: 0 <= i < |s.players| && s.players[i].username == u && s.players[i].pick == Some(drawn)
                then 1 else 0)
  {
    KeysOfFilterCountedOnce(s.players, (p: Player) => p.pick == Some(drawn), Username, u);
  }

  /** The restart timer body: `startSession()` at clock time `now`, discarding the
      closed round. */
  function Restart(s: Session, now: int): (r: Session)
    ensures r.isActive && r.players == [] && r.winningNumber.None?
    ensures r.startedAt == Some(now)
    ensures r.endsAt.Some? && r.endsAt.value == now + DefaultDurationSeconds * MsPerSecond
  {
    Start(now, DefaultDurationSeconds)
  }

  /** The body of `GET /session/status`. */
  datatype StatusView = StatusView(
    isActive: bool,
    timeLeft: int,
    hasJoined: bool,
    players: int,
    hasPicked: bool,
    pick: Option<int>,
    nextSessionStart: Option<int>)

  /** `GET /session/status` for user `u` at clock time `now`. `hasPicked` is
      `player?.pick !== null`, which is also true for a caller who never joined;
      `pick` is `player?.pick || null`. */
  function Status(s: Session, u: string, now: int): (v: StatusView)
    ensures v.isActive == s.isActive && v.players == |s.players|
    ensures v.timeLeft == Overview(s, now).timeLeft
    ensures v.hasJoined <==> Joined(s.players, u)
    ensures !Joined(s.players, u) ==> v.hasPicked && v.pick.None?
    ensures UniqueUsernames(s.players) ==>
              (!v.hasPicked <==> exists i :: 0 <= i < |s.players| && s.players[i] == Player(u, None))
    ensures v.pick.Some? ==> exists i :: 0 <= i < |s.players| && s.players[i] == Player(u, v.pick)
    ensures Joined(s.players, u) && s.players[Find(s.players, u).value].pick != Some(0) ==>
              v.pick == s.players[Find(s.players, u).value].pick
    ensures Joined(s.players, u) && s.players[Find(s.players, u).value].pick == Some(0) ==> v.pick.None?
    ensures s.isActive ==> v.nextSessionStart.None?
    ensures !s.isActive && s.endsAt.GetOr(0) + RestartDelayMs != 0 ==>
              v.nextSessionStart == Some(SecondsUntil(s.endsAt.GetOr(0) + RestartDelayMs, now))
    ensures !s.isActive && s.endsAt.GetOr(0) + RestartDelayMs == 0 ==> v.nextSessionStart.None?
  {
    var found := Find(s.players, u);
    var player := if found.Some? then Some(s.players[found.value]) else None;
    var nextStart := if s.isActive then None else Some(s.endsAt.GetOr(0) + RestartDelayMs);
    StatusView(
      s.isActive,
      TimeLeft(s.isActive, s.endsAt, now),
      player.Some?,
      |s.players|,
      !(player.Some? && player.value.pick.None?),
      if player.Some? && player.value.pick.Some? && player.value.pick.value != 0 then player.value.pick else None,
      if nextStart.Some? && nextStart.value != 0 then Some(SecondsUntil(nextStart.value, now)) else None)
  }

  /** The body of `GET /session/results` and `GET /session/completed-results`. */
  datatype ResultsView = ResultsView(winningNumber: Option<int>, players: seq<Player>, winners: seq<Player>)

  /** Properties shared by both results views: the full player list, and as
      winners exactly the players whose pick equals the winning number, in join order. */
  ghost predicate ReportsRound(v: ResultsView, s: Session) {
    && v.winningNumber == s.winningNumber
    && v.players == s.players
    && (forall i :: 0 <= i < |v.winners| ==> v.winners[i].pick == s.winningNumber && v.winners[i] in s.players)
    && (forall i :: 0 <= i < |s.players| && s.players[i].pick == s.winningNumber ==> s.players[i] in v.winners)
    && SubsequenceOf(v.winners, s.players)
  }

  /** `GET /session/results`: served only while a round is open. */
  function Results(s: Session): (r: Result<ResultsView, GameError>)
    ensures r.Err? <==> !s.isActive
    ensures r.Err? ==> r.error == NoActiveSession
    ensures r.Ok? ==> ReportsRound(r.value, s)
  {
    if !s.isActive then Err(NoActiveSession)
    else Ok(ResultsView(s.winningNumber, s.players, Winners(s.players, s.winningNumber)))
  }

  /** `GET /session/completed-results`: served only once a winning number exists. */
  function CompletedResults(s: Session): (r: Result<ResultsView, GameError>)
    ensures r.Err? <==> s.winningNumber.None?
    ensures r.Err? ==> r.error == NoCompletedResults
    ensures r.Ok? ==> ReportsRound(r.value, s) && r.value.winningNumber.Some?
    ensures r.Ok? ==> forall i :: 0 <= i < |r.value.winners| ==> r.value.winners[i].pick.Some?
  {
    if s.winningNumber.None? then Err(NoCompletedResults)
    else Ok(ResultsView(s.winningNumber, s.players, Winners(s.players, s.winningNumber)))
  }

  /** While a round is open no winning number exists, so `/session/results`
      lists as winners exactly the players who have not picked yet. */
  lemma OpenResultsListNonPickers(s: Session)
    requires s.isActive && s.winningNumber.None?
    ensures Results(s).Ok?
    ensures forall p :: p in Results(s).value.winners <==> p in s.players && p.pick.None?
  {
    var ws := Results(s).value.winners;
    forall p | p in s.players && p.pick.None?
      ensures p in ws
    {
      var i :| 0 <= i < |s.players| && s.players[i] == p;
    }
  }
}
