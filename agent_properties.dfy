/** Properties of the event traces of `main`: the order of the steps in one
    pass, their counts over a run, and that no claim ever rests on a
    cooldown read made before the previous claim. */
module AgentProperties {
  import opened Js
  import opened Duration
  import opened Cooldown
  import opened Claim
  import opened Leaderboard
  import opened Agent

  /** Scans a trace with a flag saying whether a cooldown read has been made
      since the last claim attempt; None when a claim attempt finds it unset. */
  function FreshReads(events: seq<Event>, armed: bool): Option<bool> {
    if events == [] then Some(armed)
    else
      match events[0]
      case ReadCooldown => FreshReads(events[1..], true)
      case Claim(SubmitOpenBox) => if armed then FreshReads(events[1..], false) else None
      case _ => FreshReads(events[1..], armed)
  }

  predicate Neutral(e: Event) {
    !e.ReadCooldown? && e != Claim(SubmitOpenBox)
  }

  lemma {:induction false} FreshReadsAppend(a: seq<Event>, b: seq<Event>, armed: bool)
    ensures FreshReads(a + b, armed) ==
            match FreshReads(a, armed)
            case None => None
            case Some(f) => FreshReads(b, f)
  {
    if a == [] {
      assert a + b == b;
    } else {
      assert (a + b)[0] == a[0];
      assert (a + b)[1..] == a[1..] + b;
      match a[0]
      case ReadCooldown => FreshReadsAppend(a[1..], b, true);
      case Claim(SubmitOpenBox) => if armed { FreshReadsAppend(a[1..], b, false); }
      case _ => FreshReadsAppend(a[1..], b, armed);
    }
  }

  lemma {:induction false} FreshReadsNeutral(a: seq<Event>, armed: bool)
    requires forall i :: 0 <= i < |a| ==> Neutral(a[i])
    ensures FreshReads(a, armed) == Some(armed)
  {
    if a != [] {
      assert Neutral(a[0]);
      FreshReadsNeutral(a[1..], armed);
    }
  }

  lemma BeforeFacts(c: CycleInputs)
    ensures |Before(c)| >= 1 && Before(c)[0] == ReadCooldown
    ensures forall i :: 1 <= i < |Before(c)| ==> Neutral(Before(c)[i])
    ensures multiset(Before(c))[ReadCooldown] == 1
    ensures multiset(Before(c))[Claim(SubmitOpenBox)] == 0
    ensures multiset(Before(c))[Sleep(CLAIM_INTERVAL)] == 0
    ensures |Before(c)| == if Decide(GetCooldown(c.cooldown), c.now).WaitUntil? then 3 else 1
    ensures forall i :: 0 <= i < |Before(c)| ==>
              (Before(c)[i].Countdown? <==> i == 2) && (Before(c)[i].ReadStatus? <==> i == 1)
  {
  }

  /** The events from the claim on, for claim calls that submit on chain once, first. */
  lemma ClaimTailFacts(calls: seq<ClaimCall>, outcome: ClaimOutcome, standing: Standing)
    requires |calls| >= 1 && calls[0] == SubmitOpenBox
    requires forall i :: 1 <= i < |calls| ==> calls[i] != SubmitOpenBox
    ensures var a := CallEvents(calls) + [Claimed(outcome), ReadStatus(standing), Sleep(CLAIM_INTERVAL)];
      && |a| >= 4 && a[0] == Claim(SubmitOpenBox)
      && (forall i :: 1 <= i < |a| ==> Neutral(a[i]))
      && multiset(a)[ReadCooldown] == 0
      && multiset(a)[Claim(SubmitOpenBox)] == 1
      && multiset(a)[Sleep(CLAIM_INTERVAL)] == 1
      && (forall i :: 0 <= i < |a| ==> !a[i].Countdown? && (a[i].ReadStatus? <==> i == |a| - 2))
  {
    var tail := [Claimed(outcome), ReadStatus(standing), Sleep(CLAIM_INTERVAL)];
    var a := CallEvents(calls) + tail;
    var rest := CallEvents(calls[1..]) + tail;
    assert CallEvents(calls) == [Claim(SubmitOpenBox)] + CallEvents(calls[1..]);
    assert a == [Claim(SubmitOpenBox)] + rest;
    forall i | 0 <= i < |rest| ensures Neutral(rest[i]) {
      if i < |calls| - 1 {
        assert rest[i] == Claim(calls[i + 1]);
      }
    }
    forall i | 0 <= i < |a| ensures !a[i].Countdown? && (a[i].ReadStatus? <==> i == |a| - 2) {
      if i < |calls| {
        assert a[i] == Claim(calls[i]);
      }
    }
    assert Claim(SubmitOpenBox) !in rest && ReadCooldown !in rest;
    assert Sleep(CLAIM_INTERVAL) !in CallEvents(calls);
  }

  lemma AfterFacts(fid: int, c: CycleInputs)
    ensures |After(fid, c)| >= 4 && After(fid, c)[0] == Claim(SubmitOpenBox)
    ensures forall i :: 1 <= i < |After(fid, c)| ==> Neutral(After(fid, c)[i])
    ensures multiset(After(fid, c))[ReadCooldown] == 0
    ensures multiset(After(fid, c))[Claim(SubmitOpenBox)] == 1
    ensures multiset(After(fid, c))[Sleep(CLAIM_INTERVAL)] == 1
    ensures forall i :: 0 <= i < |After(fid, c)| ==>
              !After(fid, c)[i].Countdown? && (After(fid, c)[i].ReadStatus? <==> i == |After(fid, c)| - 2)
  {
    var run := ClaimBox(fid, c.onChain, c.apiNow, c.api);
    ClaimTailFacts(run.calls, run.outcome, GetRankAndPoints(c.status));
  }

  /** The trace of a part whose first event is a cooldown read and whose
      other events are neutral leaves the flag set. */
  lemma {:induction false} FreshReadsLead(e: Event, rest: seq<Event>, armed: bool)
    requires forall i :: 0 <= i < |rest| ==> Neutral(rest[i])
    ensures FreshReads([e] + rest, armed) == (if e == ReadCooldown then Some(true)
                                             else if e == Claim(SubmitOpenBox) then (if armed then Some(false) else None)
                                             else FreshReads(rest, armed))
  {
    assert ([e] + rest)[0] == e && ([e] + rest)[1..] == rest;
    FreshReadsNeutral(rest, true);
    FreshReadsNeutral(rest, false);
  }

  lemma BeforeArms(c: CycleInputs, armed: bool)
    ensures FreshReads(Before(c), armed) == Some(true)
  {
    BeforeFacts(c);
    var b := Before(c);
    assert b == [b[0]] + b[1..];
    FreshReadsLead(b[0], b[1..], armed);
  }

  lemma AfterDisarms(fid: int, c: CycleInputs)
    ensures FreshReads(After(fid, c), true) == Some(false)
  {
    AfterFacts(fid, c);
    var a := After(fid, c);
    assert a == [a[0]] + a[1..];
    FreshReadsLead(a[0], a[1..], true);
  }

  /** Every pass reads the cooldown before it claims, and a completed pass
      leaves no read unused. */
  lemma CycleFreshReads(fid: int, c: CycleInputs, armed: bool)
    ensures FreshReads(CycleSpec(fid, c).events, armed) == Some(!CycleSpec(fid, c).completed)
  {
    var r := CycleSpec(fid, c);
    BeforeArms(c, armed);
    if r.completed {
      AfterDisarms(fid, c);
      FreshReadsAppend(Before(c), After(fid, c), armed);
    } else {
      assert r.events == Before(c);
    }
  }

  /** Over a whole run, every claim attempt follows a cooldown read made
      after the previous attempt. */
  lemma {:induction false} RunFreshReads(fid: int, cycles: seq<CycleInputs>)
    ensures FreshReads(RunSpec(fid, cycles).events, false) == Some(RunSpec(fid, cycles).pending)
    decreases |cycles|
  {
    if |cycles| > 0 {
      var prev := RunSpec(fid, cycles[..|cycles| - 1]);
      RunFreshReads(fid, cycles[..|cycles| - 1]);
      if !prev.pending {
        var c := cycles[|cycles| - 1];
        FreshReadsAppend(prev.events, CycleSpec(fid, c).events, false);
        CycleFreshReads(fid, c, false);
      }
    }
  }

  /** Positions of countdowns and status reads in a part before the claim
      followed by a part from the claim on. */
  lemma JoinedPositions(b: seq<Event>, a: seq<Event>, waits: bool)
    requires |b| == if waits then 3 else 1
    requires forall i :: 0 <= i < |b| ==> (b[i].Countdown? <==> i == 2) && (b[i].ReadStatus? <==> i == 1)
    requires |a| >= 4
    requires forall i :: 0 <= i < |a| ==> !a[i].Countdown? && (a[i].ReadStatus? <==> i == |a| - 2)
    ensures var e := b + a;
      && (waits <==> e[2].Countdown?)
      && (forall i :: 0 <= i < |e| && e[i].Countdown? ==> i == 2 && waits)
      && (forall i :: 0 <= i < |e| && e[i].ReadStatus? ==> (i == 1 && waits) || i == |e| - 2)
      && e[|e| - 2].ReadStatus?
  {
    var e := b + a;
    forall i | |b| <= i < |e| ensures e[i] == a[i - |b|] {
    }
  }

  /** Where a countdown and the status reads can stand in a pass. */
  lemma CyclePositions(fid: int, c: CycleInputs)
    ensures var r := CycleSpec(fid, c);
            var e := r.events;
            var decision := Decide(GetCooldown(c.cooldown), c.now);
      && (decision.WaitUntil? <==> |e| > 2 && e[2].Countdown?)
      && (forall i :: 0 <= i < |e| && e[i].Countdown? ==> i == 2 && decision.WaitUntil?)
      && (forall i :: 0 <= i < |e| && e[i].ReadStatus? ==>
            (i == 1 && decision.WaitUntil?) || (r.completed && i == |e| - 2))
      && (r.completed ==> e[|e| - 2].ReadStatus?)
  {
    BeforeFacts(c);
    if CycleSpec(fid, c).completed {
      AfterFacts(fid, c);
      JoinedPositions(Before(c), After(fid, c), Decide(GetCooldown(c.cooldown), c.now).WaitUntil?);
    }
  }

  /** How often a pass reads the cooldown, counts down, attempts the claim,
      reads the status and sleeps: one cooldown read; a countdown, as the
      third event, exactly when the pass waits; one claim attempt and one
      sleep when the pass completes; and status reads only just before the
      countdown and just before the sleep. */
  lemma CycleCounts(fid: int, c: CycleInputs)
    ensures var r := CycleSpec(fid, c);
            var e := r.events;
            var decision := Decide(GetCooldown(c.cooldown), c.now);
      && multiset(e)[ReadCooldown] == 1
      && multiset(e)[Claim(SubmitOpenBox)] == (if r.completed then 1 else 0)
      && multiset(e)[Sleep(CLAIM_INTERVAL)] == (if r.completed then 1 else 0)
      && (decision.WaitUntil? <==> |e| > 2 && e[2].Countdown?)
      && (forall i :: 0 <= i < |e| && e[i].Countdown? ==> i == 2 && decision.WaitUntil?)
      && (forall i :: 0 <= i < |e| && e[i].ReadStatus? ==>
            (i == 1 && decision.WaitUntil?) || (r.completed && i == |e| - 2))
      && (r.completed ==> e[|e| - 2].ReadStatus?)
  {
    BeforeFacts(c);
    AfterFacts(fid, c);
    CyclePositions(fid, c);
  }

  /** A run with `k` completed passes read the cooldown once per pass it
      started, and attempted the claim and slept once per completed pass. */
  lemma {:induction false} RunCounts(fid: int, cycles: seq<CycleInputs>)
    ensures var r := RunSpec(fid, cycles);
      && r.completed + (if r.pending then 1 else 0) <= |cycles|
      && multiset(r.events)[ReadCooldown] == r.completed + (if r.pending then 1 else 0)
      && multiset(r.events)[Claim(SubmitOpenBox)] == r.completed
      && multiset(r.events)[Sleep(CLAIM_INTERVAL)] == r.completed
    decreases |cycles|
  {
    if |cycles| > 0 {
      RunCounts(fid, cycles[..|cycles| - 1]);
      CycleCounts(fid, cycles[|cycles| - 1]);
    }
  }

  /** A pass claims without waiting when the decision says so, and then
      its steps come in the order of `main`. */
  lemma CycleOrder(fid: int, c: CycleInputs)
    ensures var r := CycleSpec(fid, c);
            var e := r.events;
            var decision := Decide(GetCooldown(c.cooldown), c.now);
      && |e| >= 3 && e[0] == ReadCooldown
      && (!decision.WaitUntil? ==>
            (r.completed && e[1] == Claim(SubmitOpenBox) && forall i :: 0 <= i < |e| ==> !e[i].Countdown?))
      && (decision.WaitUntil? ==>
            (e[1] == ReadStatus(GetRankAndPoints(c.preWaitStatus))
             && e[2].Countdown? && e[2].until == decision.nextClaim
             && (r.completed ==> e[3] == Claim(SubmitOpenBox))))
      && (r.completed ==>
            (e[|e| - 1] == Sleep(CLAIM_INTERVAL)
             && e[|e| - 2] == ReadStatus(GetRankAndPoints(c.status))
             && e[|e| - 3] == Claimed(ClaimBox(fid, c.onChain, c.apiNow, c.api).outcome)))
  {
    var decision := Decide(GetCooldown(c.cooldown), c.now);
    var run := ClaimBox(fid, c.onChain, c.apiNow, c.api);
    if decision.WaitUntil? && CycleSpec(fid, c).completed {
      assert CycleSpec(fid, c).events[3] == Claim(run.calls[0]);
    }
    if !decision.WaitUntil? {
      var e := CycleSpec(fid, c).events;
      assert e[1] == Claim(run.calls[0]);
      forall i | 0 <= i < |e| ensures !e[i].Countdown? {
        if 1 <= i < 1 + |run.calls| {
          assert e[i] == Claim(run.calls[i - 1]);
        }
      }
    }
  }

  /** A pass that waited claims only after a tick whose reading is at or past
      the next claim time, with every earlier tick still before it, and the
      last text it wrote is the all-zero countdown. */
  lemma WaitEndsWhenDue(fid: int, c: CycleInputs)
    requires Decide(GetCooldown(c.cooldown), c.now).WaitUntil?
    ensures var nextClaim := Decide(GetCooldown(c.cooldown), c.now).nextClaim;
            var e := CycleSpec(fid, c).events;
      CycleSpec(fid, c).completed <==>
        exists k :: 0 <= k < |c.ticks| && c.ticks[k] >= nextClaim
          && (forall j :: 0 <= j < k ==> c.ticks[j] < nextClaim)
          && e[2] == Countdown(nextClaim, Shown(nextClaim, c.ticks[..k + 1]))
          && e[2].shown[k] == "0h 0m 0s"
  {
    var nextClaim := Decide(GetCooldown(c.cooldown), c.now).nextClaim;
    var due := FirstDue(nextClaim, c.ticks);
    if due.Some? {
      var k := due.value;
      ZeroTextIff(nextClaim - c.ticks[k]);
      assert Shown(nextClaim, c.ticks[..k + 1])[k] == "0h 0m 0s";
    }
  }
}
