/** The session state machine of the TypeScript revision (`src/app.ts`): joining
    carries the pick, and a closed round is never restarted. Every handler is a
    pure function of the current session; the clock is the parameter `now`
    (milliseconds) and the random draw is the parameter `drawn`. */
module SrcSession {
  import opened Outcomes
  import opened Seqs
  import opened GameRules
  import opened Rounds

  /** A player of the current round with the pick given when joining. */
  datatype Player = Player(username: string, pick: int)

  /** The session record with this revision's player entries. */
  type Session = Round<Player>

  function Username(p: Player): string { p.username }

  /** `players.some(player => player.username === username)`. */
  predicate Joined(ps: seq<Player>, u: string) {
    exists i :: 0 <= i < |ps| && ps[i].username == u
  }

  ghost predicate UniqueUsernames(ps: seq<Player>) {
    KeysUnique(ps, Username)
  }

  /** Every stored pick passed the handler's range check. */
  ghost predicate PicksInRange(ps: seq<Player>) {
    forall i :: 0 <= i < |ps| ==> MinPick <= ps[i].pick <= MaxPick
  }

  /** `POST /session/join` by `u` with body field `pick`. The checks run in the
      order: round open, valid pick, not yet joined. */
  function Join(s: Session, u: string, pick: PickInput): (r: Result<Session, GameError>)
    ensures r == Err(NoActiveSession) <==> !s.isActive
    ensures r == Err(InvalidPick) <==> s.isActive && !IsValidPick(pick)
    ensures r == Err(AlreadyJoined) <==> s.isActive && IsValidPick(pick) && Joined(s.players, u)
    ensures r.Err? ==> r.error in {NoActiveSession, InvalidPick, AlreadyJoined}
    ensures r.Ok? ==>
      && |r.value.players| == |s.players| + 1
      && r.value.players[..|s.players|] == s.players
      && r.value.players[|s.players|] == Player(u, pick.n)
      && MinPick <= pick.n <= MaxPick
      && r.value.(players := s.players) == s
  {
    if !s.isActive then Err(NoActiveSession)
    else if !IsValidPick(pick) then Err(InvalidPick)
    else if Joined(s.players, u) then Err(AlreadyJoined)
    else Ok(s.(players := s.players + [Player(u, pick.n)]))
  }

  /** A successful join keeps usernames unique and every stored pick in range. */
  lemma JoinPreservesPlayers(s: Session, u: string, pick: PickInput)
    requires UniqueUsernames(s.players) && PicksInRange(s.players)
    requires Join(s, u, pick).Ok?
    ensures UniqueUsernames(Join(s, u, pick).value.players)
    ensures PicksInRange(Join(s, u, pick).value.players)
  {
    var ps := Join(s, u, pick).value.players;
    forall i, j | 0 <= i < j < |ps|
      ensures Username(ps[i]) != Username(ps[j])
    {
      if j == |s.players| {
        assert ps[i] == s.players[i];
      } else {
        assert ps[i] == s.players[i] && ps[j] == s.players[j];
      }
    }
  }

  /** Two joins by the same user in the same round: the second is refused, even
      with a different pick. */
  lemma SecondJoinRefused(s: Session, u: string, first: PickInput, second: PickInput)
    requires Join(s, u, first).Ok? && IsValidPick(second)
    ensures Join(Join(s, u, first).value, u, second) == Err(AlreadyJoined)
  {
    var s' := Join(s, u, first).value;
    assert s'.players[|s.players|].username == u;
  }

  /** The outcome of the close timer: the closed session, the players whose pick
      matched, and the usernames whose win count is incremented, one per update. */
  datatype Resolution = Resolution(session: Session, winners: seq<Player>, credited: seq<string>)

  /** `players.filter(player => player.pick === winningNumber)`: a stored pick is
      always a number, so it never equals an absent winning number. */
  function Winners(ps: seq<Player>, w: Option<int>): seq<Player>
  {
    Filter(ps, (p: Player) => Some(p.pick) == w)
  }

  /** The close timer body with winning number `drawn`. Nothing is scheduled
      after it. */
  function Close(s: Session, drawn: int): (r: Resolution)
    ensures !r.session.isActive && r.session.winningNumber == Some(drawn)
    ensures r.session.(isActive := s.isActive, winningNumber := s.winningNumber) == s
    ensures forall i :: 0 <= i < |r.winners| ==> r.winners[i].pick == drawn && r.winners[i] in s.players
    ensures forall i :: 0 <= i < |s.players| && s.players[i].pick == drawn ==> s.players[i] in r.winners
    ensures SubsequenceOf(r.winners, s.players)
    ensures |r.credited| == |r.winners|
    ensures forall i :: 0 <= i < |r.winners| ==> r.credited[i] == r.winners[i].username
  {
    var closed := s.(isActive := false, winningNumber := Some(drawn));
    var winners := Winners(closed.players, Some(drawn));
    Resolution(closed, winners, Project(winners, Username))
  }

  /** With unique usernames, close increments the win count of each matching
      player exactly once and of nobody else. */
  lemma CloseCreditsEachWinnerOnce(s: Session, drawn: int, u: string)
    requires UniqueUsernames(s.players)
    ensures Count(Close(s, drawn).credited, u)
            == (if exists i :: 0 <= i < |s.players| && s.players[i].username == u && s.players[i].pick == drawn
                then 1 else 0)
  {
    KeysOfFilterCountedOnce(s.players, (p: Player) => Some(p.pick) == Some(drawn), Username, u);
  }

  /** The body of `GET /session/results`. */
  datatype ResultsView = ResultsView(winningNumber: Option<int>, players: seq<Player>, winners: seq<Player>)

  /** `GET /session/results`: served only while a round is open; the winners are
      the players whose pick equals the winning number, in join order. */
  function Results(s: Session): (r: Result<ResultsView, GameError>)
    ensures r.Err? <==> !s.isActive
    ensures r.Err? ==> r.error == NoActiveSession
    ensures r.Ok? ==> r.value.winningNumber == s.winningNumber && r.value.players == s.players
    ensures r.Ok? ==> SubsequenceOf(r.value.winners, s.players)
    ensures r.Ok? ==> forall i :: 0 <= i < |r.value.winners| ==> Some(r.value.winners[i].pick) == s.winningNumber
    ensures r.Ok? ==> forall i :: 0 <= i < |s.players| && Some(s.players[i].pick) == s.winningNumber ==>
                        s.players[i] in r.value.winners
    ensures r.Ok? && s.winningNumber.None? ==> r.value.winners == []
  {
    if !s.isActive then Err(NoActiveSession)
    else Ok(ResultsView(s.winningNumber, s.players, Winners(s.players, s.winningNumber)))
  }
}
