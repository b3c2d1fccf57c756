/** The cycle scheduler `main`: each pass reads the cooldown, waits out the
    remainder of the interval with a per-tick countdown, claims once, reads
    the status and sleeps for the claim interval. The clock and every remote
    reply are inputs: one `CycleInputs` value per pass of the loop. */
module Agent {
  import opened Js
  import opened Duration
  import opened Cooldown
  import opened Claim
  import opened Leaderboard

  /** Everything the outside world supplies to one pass of the loop. */
  datatype CycleInputs = CycleInputs(
    cooldown: CooldownReply,        // reply to the cooldown read
    now: int,                       // clock reading after that read
    preWaitStatus: PipelineReply,   // reply to the status read made before waiting
    countdownStart: int,            // clock reading as the countdown starts
    ticks: seq<int>,                // clock readings at the successive countdown ticks
    onChain: OnChainResult,         // how the on-chain claim stage ends
    apiNow: int,                    // clock reading as the API fallback starts
    api: ApiResult,                 // how the API fallback ends
    status: PipelineReply)          // reply to the status read after the claim

  /** What the agent does, in order. */
  datatype Event =
    | ReadCooldown
    | ReadStatus(standing: Standing)
    | Countdown(until: int, shown: seq<string>)  // the countdown texts written, one per tick
    | Claim(call: ClaimCall)
    | Claimed(outcome: ClaimOutcome)
    | Sleep(ms: int)

  /** The texts a countdown to `nextClaim` writes at the given clock readings:
      each one is the remaining time computed afresh from its own reading. */
  function Shown(nextClaim: int, ticks: seq<int>): (r: seq<string>)
    ensures |r| == |ticks|
  {
    seq(|ticks|, j requires 0 <= j < |ticks| => FormatRemainingTime(nextClaim - ticks[j]))
  }

  /** The index of the first reading at or past `nextClaim`, if any. */
  function FirstDue(nextClaim: int, ticks: seq<int>): (r: Option<nat>)
    ensures r.Some? ==> r.value < |ticks| && ticks[r.value] >= nextClaim
    ensures r.Some? ==> forall j :: 0 <= j < r.value ==> ticks[j] < nextClaim
    ensures r.None? ==> forall j :: 0 <= j < |ticks| ==> ticks[j] < nextClaim
  {
    if |ticks| == 0 then None
    else if ticks[0] >= nextClaim then Some(0)
    else
      match FirstDue(nextClaim, ticks[1..])
      case None => None
      case Some(k) => Some(k + 1)
  }

  /** The countdown of `main`: `remaining` starts from the reading
      `start` and is recomputed from each tick's reading; the loop ends at
      the first tick where nothing remains. `due` is false when the readings
      run out first. */
  method AwaitNextClaim(nextClaim: int, start: int, ticks: seq<int>)
    returns (due: bool, k: nat, remaining: int, shown: seq<string>)
    ensures due <==> FirstDue(nextClaim, ticks).Some?
    ensures due ==> k == FirstDue(nextClaim, ticks).value && k < |ticks|
    ensures due ==> remaining == nextClaim - ticks[k] && remaining <= 0 && ticks[k] >= nextClaim
    ensures due ==> shown == Shown(nextClaim, ticks[..k + 1]) && shown[k] == "0h 0m 0s"
    ensures !due ==> k == |ticks| && shown == Shown(nextClaim, ticks)
    ensures !due ==> remaining == if ticks == [] then nextClaim - start else nextClaim - ticks[|ticks| - 1]
  {
    remaining := nextClaim - start;
    shown := [];
    due := false;
    k := 0;
    while k < |ticks|
      invariant k <= |ticks|
      invariant forall j :: 0 <= j < k ==> ticks[j] < nextClaim
      invariant shown == Shown(nextClaim, ticks[..k])
      invariant remaining == if k == 0 then nextClaim - start else nextClaim - ticks[k - 1]
    {
      remaining := nextClaim - ticks[k];
      shown := shown + [FormatRemainingTime(remaining)];
      assert shown == Shown(nextClaim, ticks[..k + 1]);
      if remaining <= 0 {
        due := true;
        return;
      }
      k := k + 1;
    }
    assert ticks[..k] == ticks;
  }

  function CallEvents(calls: seq<ClaimCall>): (r: seq<Event>)
    ensures |r| == |calls|
    ensures forall i :: 0 <= i < |calls| ==> r[i] == Claim(calls[i])
  {
    if calls == [] then [] else [Claim(calls[0])] + CallEvents(calls[1..])
  }

  /** The events of one pass, and whether it went past the countdown. */
  datatype CycleResult = CycleResult(events: seq<Event>, completed: bool)

  /** The part of a pass up to the claim: the cooldown read and, when the
      pass waits, the status read and the countdown, whose texts run up to
      the first due tick or over all readings when none is due. */
  function Before(c: CycleInputs): seq<Event> {
    var decision := Decide(GetCooldown(c.cooldown), c.now);
    if decision.WaitUntil? then
      var due := FirstDue(decision.nextClaim, c.ticks);
      var shown := if due.Some? then Shown(decision.nextClaim, c.ticks[..due.value + 1])
                   else Shown(decision.nextClaim, c.ticks);
      [ReadCooldown, ReadStatus(GetRankAndPoints(c.preWaitStatus)), Countdown(decision.nextClaim, shown)]
    else [ReadCooldown]
  }

  /** The part of a pass from the claim on: the claim calls, the outcome,
      the status read and the sleep. */
  function After(fid: int, c: CycleInputs): seq<Event> {
    var run := ClaimBox(fid, c.onChain, c.apiNow, c.api);
    CallEvents(run.calls) + [Claimed(run.outcome), ReadStatus(GetRankAndPoints(c.status)), Sleep(CLAIM_INTERVAL)]
  }

  /** One pass of the loop of `main`, as a function of its inputs: it stops
      inside the countdown when no reading is due, and otherwise claims. */
  function CycleSpec(fid: int, c: CycleInputs): CycleResult {
    var decision := Decide(GetCooldown(c.cooldown), c.now);
    if decision.WaitUntil? && FirstDue(decision.nextClaim, c.ticks).None? then
      CycleResult(Before(c), false)
    else
      CycleResult(Before(c) + After(fid, c), true)
  }

  /** One pass of the loop of `main`. */
  method Cycle(fid: int, c: CycleInputs) returns (events: seq<Event>, completed: bool)
    ensures CycleResult(events, completed) == CycleSpec(fid, c)
  {
    var lastOpen := GetCooldown(c.cooldown);
    events := [ReadCooldown];
    var decision := Decide(lastOpen, c.now);
    if decision.WaitUntil? {
      var standing := GetRankAndPoints(c.preWaitStatus);
      events := events + [ReadStatus(standing)];
      var due, k, remaining, shown := AwaitNextClaim(decision.nextClaim, c.countdownStart, c.ticks);
      events := events + [Countdown(decision.nextClaim, shown)];
      assert events == Before(c);
      if !due {
        completed := false;
        return;
      }
    }
    assert events == Before(c);
    var run := ClaimBox(fid, c.onChain, c.apiNow, c.api);
    events := events + CallEvents(run.calls) + [Claimed(run.outcome)];
    var standing := GetRankAndPoints(c.status);
    events := events + [ReadStatus(standing), Sleep(CLAIM_INTERVAL)];
    assert events == Before(c) + After(fid, c);
    completed := true;
  }

  /** The events of a run, how many passes completed, and whether the run
      ended inside a countdown whose readings ran out. */
  datatype RunResult = RunResult(events: seq<Event>, completed: nat, pending: bool)

  /** The loop of `main` over the passes given, as a function of its inputs. */
  function RunSpec(fid: int, cycles: seq<CycleInputs>): RunResult
    decreases |cycles|
  {
    if |cycles| == 0 then RunResult([], 0, false)
    else
      var prev := RunSpec(fid, cycles[..|cycles| - 1]);
      if prev.pending then prev
      else
        var c := CycleSpec(fid, cycles[|cycles| - 1]);
        RunResult(prev.events + c.events, prev.completed + if c.completed then 1 else 0, !c.completed)
  }

  /** The `while (true)` loop of `main`, run for the passes given. */
  method Run(fid: int, cycles: seq<CycleInputs>) returns (events: seq<Event>, completed: nat, pending: bool)
    ensures RunResult(events, completed, pending) == RunSpec(fid, cycles)
  {
    events, completed, pending := [], 0, false;
    var i := 0;
    while i < |cycles| && !pending
      invariant i <= |cycles|
      invariant RunResult(events, completed, pending) == RunSpec(fid, cycles[..i])
    {
      assert cycles[..i + 1][..i] == cycles[..i];
      var cycleEvents, cycleCompleted := Cycle(fid, cycles[i]);
      events := events + cycleEvents;
      if cycleCompleted {
        completed := completed + 1;
      } else {
        pending := true;
      }
      i := i + 1;
    }
    PendingStays(fid, cycles, i);
  }

  /** A run that is stuck in a countdown ignores the passes after it. */
  lemma {:induction false} PendingStays(fid: int, cycles: seq<CycleInputs>, i: nat)
    requires i <= |cycles|
    requires i == |cycles| || RunSpec(fid, cycles[..i]).pending
    ensures RunSpec(fid, cycles) == RunSpec(fid, cycles[..i])
    decreases |cycles|
  {
    if i == |cycles| {
      assert cycles[..i] == cycles;
    } else {
      var init := cycles[..|cycles| - 1];
      assert init[..i] == cycles[..i];
      PendingStays(fid, init, i);
    }
  }
}
