/** The `currentSession` record both revisions keep, and the parts of its
    lifecycle they share: starting a round at load and the `/session` view.
    The revisions differ only in what a player entry `P` holds. */
module Rounds {
  import opened Outcomes
  import opened GameRules

  /** `currentSession`. `startedAt` and `endsAt` are `null` only before the first start. */
  datatype Round<P> = Round(
    isActive: bool,
    startedAt: Option<int>,
    endsAt: Option<int>,
    players: seq<P>,
    winningNumber: Option<int>)

  /** The value `currentSession` holds before the first `startSession` call. */
  function Initial<P>(): (s: Round<P>)
    ensures !s.isActive && s.players == [] && s.winningNumber.None? && s.endsAt.None?
  {
    Round(false, None, None, [], None)
  }

  /** `startSession(durationSeconds)` at clock time `now`: a fresh open round. */
  function Start<P>(now: int, durationSeconds: int): (s: Round<P>)
    ensures s.isActive && s.players == [] && s.winningNumber.None?
    ensures s.startedAt == Some(now)
    ensures s.endsAt.Some? && s.endsAt.value - now == durationSeconds * MsPerSecond
  {
    Round(true, Some(now), Some(now + durationSeconds * MsPerSecond), [], None)
  }

  /** Module load: the initial session is inactive, so `startSession()` runs with
      the default 20-second duration. */
  function Load<P>(now: int): (s: Round<P>)
    ensures s == Start(now, DefaultDurationSeconds)
  {
    if !Initial<P>().isActive then Start(now, DefaultDurationSeconds) else Initial()
  }

  /** A round that has just started shows its full duration as `timeLeft`. */
  lemma StartShowsFullDuration<P>(now: int, durationSeconds: nat)
    ensures TimeLeft(Start<P>(now, durationSeconds).isActive, Start<P>(now, durationSeconds).endsAt, now)
            == durationSeconds
  {
    var s := Start<P>(now, durationSeconds);
    assert s.endsAt.value - now == durationSeconds * MsPerSecond;
  }

  /** The body of `GET /session`. */
  datatype SessionView = SessionView(isActive: bool, timeLeft: int, playersCount: int)

  /** `GET /session` at clock time `now`. */
  function Overview<P>(s: Round<P>, now: int): (v: SessionView)
    ensures v.isActive == s.isActive && v.playersCount == |s.players|
    ensures 0 <= v.timeLeft && (!s.isActive ==> v.timeLeft == 0)
    ensures s.isActive && s.endsAt.Some? ==> v.timeLeft == SecondsUntil(s.endsAt.value, now)
  {
    SessionView(s.isActive, TimeLeft(s.isActive, s.endsAt, now), |s.players|)
  }
}
