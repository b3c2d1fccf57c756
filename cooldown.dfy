/** The cooldown tracker: the last-claim time reported by the cooldown
    service (`getCooldown`) and the go/wait decision `main` takes from it. */
module Cooldown {
  import opened Js

  /** Three hours, in milliseconds. */
  const CLAIM_INTERVAL: int := 3 * 60 * 60 * 1000

  /** What one cooldown read yields: the `lastOpen` field of the parsed body
      (None when it is missing or null), or a transport or parse failure. */
  datatype CooldownReply = CooldownBody(lastOpen: Option<int>) | CooldownFailed

  /** `getCooldown()`: the reported time, or null on a missing field or any failure. */
  function GetCooldown(reply: CooldownReply): (r: Option<int>)
    ensures r.Some? <==> reply.CooldownBody? && reply.lastOpen.Some?
    ensures r.Some? ==> r.value == reply.lastOpen.value
  {
    match reply
    case CooldownBody(lastOpen) => lastOpen
    case CooldownFailed => None
  }

  /** The branch `main` takes after a cooldown read. */
  datatype Decision =
    | ClaimWithoutData          // `!lastOpen`: null, or the falsy time 0
    | ClaimCooldownOver         // the interval has passed
    | WaitUntil(nextClaim: int) // `now < nextClaim`

  /** The decision of `main` for a read `lastOpen` and the clock reading `now`. */
  function Decide(lastOpen: Option<int>, now: int): (d: Decision)
    ensures d.ClaimWithoutData? <==> lastOpen.None? || lastOpen.value == 0
    ensures d.WaitUntil? <==>
              lastOpen.Some? && lastOpen.value != 0 && now < lastOpen.value + CLAIM_INTERVAL
    ensures d.ClaimCooldownOver? <==>
              lastOpen.Some? && lastOpen.value != 0 && now >= lastOpen.value + CLAIM_INTERVAL
    ensures d.WaitUntil? ==> d.nextClaim == lastOpen.value + CLAIM_INTERVAL && d.nextClaim - now > 0
    ensures d.WaitUntil? && lastOpen.value <= now ==> d.nextClaim - now <= CLAIM_INTERVAL
  {
    if lastOpen.None? || lastOpen.value == 0 then ClaimWithoutData
    else
      var nextClaim := lastOpen.value + CLAIM_INTERVAL;
      if now < nextClaim then WaitUntil(nextClaim) else ClaimCooldownOver
  }

  /** Fail-open: a failed or empty cooldown read never makes the agent wait. */
  lemma FailOpen(reply: CooldownReply, now: int)
    requires reply.CooldownFailed? || reply.lastOpen.None?
    ensures Decide(GetCooldown(reply), now) == ClaimWithoutData
  {
  }

  /** Once a claim is due it stays due as the clock advances. */
  lemma DueStaysDue(lastOpen: Option<int>, now: int, later: int)
    requires now <= later
    requires !Decide(lastOpen, now).WaitUntil?
    ensures !Decide(lastOpen, later).WaitUntil?
  {
  }

  /** A claim two hours ago leaves one hour to wait. */
  lemma TwoHoursAgoWaitsOneHour(now: int)
    requires now != 2 * 60 * 60 * 1000
    ensures Decide(Some(now - 2 * 60 * 60 * 1000), now) == WaitUntil(now + 60 * 60 * 1000)
  {
  }
}
