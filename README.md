# Box auto-claim agent: a Dafny model

This project models the control logic of a small Node.js agent (`index.js`)
that claims a time-gated reward box for one identity (its Farcaster id, `FID`)
every three hours. Each pass of its endless loop reads the last-claim time
from the cooldown service and decides whether to wait. If it waits, it shows a
per-second countdown until the claim is due. It then claims once, on chain
first (`openBox()`) and, only if that fails, with exactly one fallback
request to the cooldown service's API. Finally it reads the identity's points and rank from the
leaderboard store and sleeps for the claim interval.

Every network call, the chain call and every clock reading becomes an input
value. The model has these modules:

- `Js` (`js.dfy`): the JSON values the agent receives, with JavaScript truthiness (`!x`) and nullishness (`??`, `!= null`).
- `Duration` (`duration.dfy`): `formatRemainingTime`, the decimal rendering of its numbers, and a parser that inverts it.
- `Cooldown` (`cooldown.dfy`): `getCooldown`, the three-hour `CLAIM_INTERVAL`, and the go/wait decision of `main`.
- `Claim` (`claim.dfy`): `claimBox`, the two-stage claim. It returns the calls it makes and the outcome record.
- `Leaderboard` (`leaderboard.dfy`): `getRankAndPoints`.
- `Agent` (`agent.dfy`): the loop of `main`. The countdown is a method with a loop over clock readings (`AwaitNextClaim`), one pass is the `Cycle` method, and the `while (true)` loop over a finite sequence of passes is the `Run` method. Each method is proved equal to a specification function (`FirstDue`/`Shown`, `CycleSpec`, `RunSpec`).
- `AgentProperties` (`agent_properties.dfy`): properties of the event traces of those functions.

### Where the code and the system's design description differ (the model follows the code)

- After reporting the status, `main` sleeps a fixed `CLAIM_INTERVAL` (index.js:170). The design description says there is no extra delay.
- When it has to wait, `main` reads the status once more, before the countdown (index.js:131).
- An API reply without a truthy `ok` still gives `method: "api"`; only a transport or parse failure gives `"none"` (index.js:85-88). The design description reports such a reply as path NONE.
- The `ok` field of an API outcome is the raw JSON value of `result?.ok`, or `false` when that value is nullish; it is not coerced to a boolean (index.js:85).
- A `lastOpen` of `0` is falsy and so is treated like "no data" (index.js:125); only `null`/missing become null in `getCooldown` (index.js:40).
- No ledger crediting or history append is done after a claim; `index.js` only reads score and rank.
- No call has a timeout. `fetch` (index.js:38, 69, 95) and `tx.wait()` (index.js:55) are awaited without a time limit, so the bound of one chain-confirmation timeout plus one HTTP timeout per claim attempt is not enforced by the code.

## Model

| member | source | states |
|---|---|---|
| `Duration.Split` | index.js:29-32 | zero for `ms <= 0`; otherwise `hours*3600 + minutes*60 + seconds == ms / 1000` (floor) with minutes and seconds below 60, hours unbounded |
| `Duration.SplitUnique` | index.js:29-32 | any breakdown with minutes and seconds below 60 that sums to the whole seconds of a positive duration is the one `Split` gives |
| `Duration.Decimal` | index.js:33 | the template-literal text of a non-negative integer is a non-empty run of digits without a leading zero |
| `Duration.DecimalRoundTrip` | index.js:33 | the decimal text reads back to the number it renders |
| `Duration.FormatRemainingTime` | index.js:27-34 | exactly `"0h 0m 0s"` for `ms <= 0`, and that early return agrees with the general `Xh Ym Zs` rendering of the breakdown |
| `Duration.FormatRoundTrip` | index.js:27-34 | parsing the countdown text gives back exactly the breakdown, so the text determines hours, minutes and seconds |
| `Duration.ZeroTextIff` | index.js:28-33 | the countdown text is all zeros if and only if less than one second (1000 ms) remains |
| `Cooldown.GetCooldown` | index.js:36-44 | the reported `lastOpen` when present; null when the field is missing or null and on any failure |
| `Cooldown.Decide` | index.js:122-130 | claim without waiting when `lastOpen` is null or 0; otherwise wait until `lastOpen + 10800000` exactly when `now` is earlier, with a positive wait that is at most the interval when `lastOpen <= now`, and claim directly otherwise |
| `Cooldown.FailOpen` | index.js:40-43 | a failed or empty cooldown read always leads to an immediate claim |
| `Cooldown.DueStaysDue` | index.js:130 | once the claim is due, it stays due at every later clock reading |
| `Cooldown.TwoHoursAgoWaitsOneHour` | index.js:128-130 | a last claim two hours before `now` gives a wait of one hour |
| `Claim.OnChainCalls` | index.js:51-58 | the on-chain stage submits `openBox()` first and makes no API request |
| `Claim.ClaimBox` | index.js:47-91 | on chain is tried first and submitted once. The API request, with payload `{fid, timestamp: now}`, is made exactly when the on-chain stage failed, as the last call, and no earlier call is an API request. `method` is `on-chain` exactly on confirmation, `api` exactly for a fallback with a reply, and `none` exactly for a failed fallback. `ok` is truthy exactly on confirmation or for a truthy reply `ok`, and is `false` when that value is nullish or the request failed. A tx hash appears exactly for a confirmed transaction |
| `Claim.ApiAtMostOnce` | index.js:58-75 | every API request the attempt makes, whatever its arguments, is the last call, carries this attempt's `fid` and clock reading, and occurs only after an on-chain failure; so there is exactly one after a failure and none after a confirmation |
| `Claim.ConfirmedIgnoresApi` | index.js:51-57 | after an on-chain confirmation neither the API reply nor the fallback clock reading affects the calls or the outcome |
| `Claim.FailureKindIrrelevant` | index.js:58-62 | a failed submission and a failed confirmation lead to the same outcome |
| `Leaderboard.GetRankAndPoints` | index.js:93-116 | on failure both fields are "N/A". Otherwise `points` is the ZSCORE result, or "N/A" when it is nullish. `rank` is a number exactly when ZREVRANK gave an index; it then equals the index plus one, and is at least 1 for a non-negative index. Otherwise it is "N/A" |
| `Leaderboard.RankRoundTrip` | index.js:109 | the reported rank minus one is the ZREVRANK index, and "N/A" corresponds to no index |
| `Leaderboard.TopIsRankOne` | index.js:109 | rank 1 is reported exactly for index 0 |
| `Agent.FirstDue` | index.js:141-151 | the tick at which the countdown stops is the first reading at or past `nextClaim`; when there is none, every reading is earlier |
| `Agent.AwaitNextClaim` | index.js:138-153 | the countdown loop stops at the first tick where `remaining = nextClaim - reading` is `<= 0`. The clock is then at or past `nextClaim`, every text written is `formatRemainingTime(nextClaim - reading)` for its own tick, and the last text is `"0h 0m 0s"`. Without such a tick it is still waiting and `remaining` holds the value computed at the last tick |
| `Agent.Cycle` | index.js:122-170 | one pass of the loop produces exactly the trace and completion of `CycleSpec` |
| `Agent.Run` | index.js:121-171 | the loop over the given passes produces exactly the trace, completed count and pending flag of `RunSpec` |
| `Agent.PendingStays` | index.js:140-153 | a run stuck in a countdown never reaches a later pass |
| `AgentProperties.CycleFreshReads` | index.js:122-158 | in one pass the cooldown read comes before the claim attempt, and a completed pass uses up that read |
| `AgentProperties.RunFreshReads` | index.js:121-171 | over a whole run, every on-chain claim attempt follows a cooldown read made since the previous attempt, so no claim rests on stale cooldown data |
| `AgentProperties.CycleCounts` | index.js:122-170 | a pass reads the cooldown once. A countdown appears only as the third event, and exactly when the pass waits. A completed pass attempts the claim once and sleeps once. The status is read only right before the countdown (when waiting) and right before the sleep (when completed), and a completed pass always has that second read |
| `AgentProperties.RunCounts` | index.js:121-171 | over a run, cooldown reads = passes started, claim attempts = sleeps = passes completed |
| `AgentProperties.CycleOrder` | index.js:121-170 | a pass starts with the cooldown read. With no wait it claims next and shows no countdown. With a wait, the status read comes next, then the countdown to `lastOpen + CLAIM_INTERVAL`, and, if the countdown ends, the on-chain claim straight after. A completed pass ends with the claim outcome, the status read and a sleep of `CLAIM_INTERVAL` |
| `AgentProperties.WaitEndsWhenDue` | index.js:138-158 | a pass that waits goes on to claim if and only if some tick reads at or past `nextClaim`. All earlier ticks are before it, the countdown texts run up to that tick, and the last text is all zeros |

## Left out

- Network and chain calls (`fetch` to the cooldown service and the leaderboard store; the ethers provider, wallet, contract and `tx.wait()`). Their results are inputs: `CooldownReply`, `OnChainResult`, `ApiResult` and `PipelineReply`.
- JSON parsing of response bodies. A parsed body is given by the field values the code reads. A non-object body yields `undefined` fields. A null body, where `data.lastOpen` or `data[0]` throws, counts as a failure.
- Every awaited external call (`fetch`, `res.json()`, `openBox()`, `tx.wait()`) is modelled as either returning or throwing. A call that never settles would leave a pass hanging inside a cooldown read, a claim or a status read, for example after `openBox()` was submitted. The model cannot express that: a run is pending only when a countdown's clock readings run out. `RunCounts` and `PendingStays` hold under this assumption.
- JavaScript numbers are doubles, while the model uses exact integers. Above 2^53, `lastOpen + CLAIM_INTERVAL` (index.js:128) and `ms / 1000` (index.js:29) would round in JavaScript, and that rounding is not modelled.
- Non-integer numbers, `NaN` and objects or arrays as field values. `lastOpen` and the ZREVRANK result are assumed to be numbers, null or missing. A string or boolean there would go through JavaScript's `+` and mixed-type `<`, which the model does not capture.
- `Duration.Decimal`: renders every non-negative integer in plain decimal. JavaScript switches to exponent notation from 10^21, which no hour count derived from a clock difference reaches.
- Environment configuration from dotenv, the all-variables-present check and `process.exit(1)`. The identity is a parameter `fid`, already converted by `Number(FID)`.
- `formatDate` (locale- and timezone-dependent) and all console and `stdout` output, including the success/failure report after a claim.
- Timer semantics: the one-second cadence of `setInterval` and the real duration of `setTimeout`. Clock readings are inputs, a sleep is a `Sleep(ms)` event, and a countdown whose readings run out leaves the run pending.
- The endless `while (true)` loop is modelled as a run over any finite sequence of passes.
- Ledger crediting, history appends and the social-platform engagement call are not part of `index.js`, so they are not modelled.
