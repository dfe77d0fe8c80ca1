/** Constants, errors and arithmetic shared by both revisions of the game server:
    pick validation, the clamped seconds countdown and the winning-number draw. */
module GameRules {
  import opened Outcomes

  /** `startSession`'s default round length, in seconds. */
  const DefaultDurationSeconds: int := 20
  /** Delay between a round closing and the next one starting, in milliseconds. */
  const RestartDelayMs: int := 10000
  const MsPerSecond: int := 1000
  const MinPick: int := 1
  const MaxPick: int := 10

  /** The refusals a session handler answers with (all HTTP 400). */
  datatype GameError =
    | NoActiveSession     // "No active session buddy!"
    | InvalidPick         // "Invalid pick buddy! ..."
    | AlreadyJoined       // "You've already joined the session buddy!"
    | NotJoined           // "You haven't joined this session!"
    | AlreadyPicked       // "You've already picked a number!"
    | NoCompletedResults  // "No completed session results available!"

  /** The `pick` field of a JSON request body: a number, or anything else
      (missing, a string, `null`, an object, ...). */
  datatype PickInput = Number(n: int) | NotANumber

  /** `typeof pick === "number" && !(pick < 1) && !(pick > 10)`. */
  predicate IsValidPick(p: PickInput) {
    p.Number? && MinPick <= p.n <= MaxPick
  }

  /** `Math.max(0, Math.floor((target - now) / 1000))`: whole seconds left until
      `target`, clamped at zero. Dafny's `/` by a positive divisor rounds toward
      negative infinity, as `Math.floor` does. */
  function SecondsUntil(target: int, now: int): (r: nat)
    ensures r == 0 <==> target - now < MsPerSecond
    ensures r * MsPerSecond <= target - now < (r + 1) * MsPerSecond || (r == 0 && target - now < 0)
  {
    var q := (target - now) / MsPerSecond;
    if q < 0 then 0 else q
  }

  /** The countdown never goes up as the clock advances. */
  lemma SecondsUntilNeverIncreases(target: int, now1: int, now2: int)
    requires now1 <= now2
    ensures SecondsUntil(target, now2) <= SecondsUntil(target, now1)
  {
  }

  /** A later target never yields a shorter countdown. */
  lemma SecondsUntilGrowsWithTarget(target1: int, target2: int, now: int)
    requires target1 <= target2
    ensures SecondsUntil(target1, now) <= SecondsUntil(target2, now)
  {
  }

  /** The `timeLeft` field of `/session` and `/session/status`: zero for a closed
      round, otherwise the clamped seconds until `endsAt` (a `null` end time
      subtracts as 0, as in JavaScript). */
  function TimeLeft(isActive: bool, endsAt: Option<int>, now: int): (r: nat)
    ensures !isActive ==> r == 0
    ensures isActive && endsAt.Some? && endsAt.value - now >= MsPerSecond ==>
              r * MsPerSecond <= endsAt.value - now < (r + 1) * MsPerSecond
    ensures isActive && endsAt.Some? && endsAt.value - now < MsPerSecond ==> r == 0
  {
    if isActive then SecondsUntil(endsAt.GetOr(0), now) else 0
  }

  /** While a round stays open, `timeLeft` never increases as time passes. */
  lemma TimeLeftNeverIncreases(isActive: bool, endsAt: Option<int>, now1: int, now2: int)
    requires now1 <= now2
    ensures TimeLeft(isActive, endsAt, now2) <= TimeLeft(isActive, endsAt, now1)
  {
    if isActive {
      SecondsUntilNeverIncreases(endsAt.GetOr(0), now1, now2);
    }
  }

  /** `Math.floor(Math.random() * 10) + 1` for a random sample `u` in [0, 1): the
      number `k` is drawn exactly when `u` lies in the k-th tenth of the interval. */
  function DrawWinningNumber(u: real): (r: int)
    requires 0.0 <= u < 1.0
    ensures MinPick <= r <= MaxPick
    ensures (r - 1) as real / 10.0 <= u < r as real / 10.0
  {
    (u * 10.0).Floor + 1
  }

  /** Every admissible pick can be the winning number. */
  lemma EveryPickCanWin(k: int)
    requires MinPick <= k <= MaxPick
    ensures DrawWinningNumber((k - 1) as real / 10.0) == k
  {
  }
}
