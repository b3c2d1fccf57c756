/** The claim executor `claimBox`: one on-chain `openBox()` transaction,
    and, only when that fails, one claim request to the cooldown service. */
module Claim {
  import opened Js

  /** How the on-chain stage ends: `openBox()` throws before a transaction
      exists, `tx.wait()` throws for a submitted transaction, or the
      transaction is confirmed. */
  datatype OnChainResult =
    | SubmitFailed
    | ConfirmFailed(txHash: string)
    | Confirmed(txHash: string)

  /** How the API stage ends: a parsed reply, given as the value of
      `result?.ok` (Undefined when the reply or its field is missing), or a
      transport or parse failure. */
  datatype ApiResult = ApiReply(ok: JsValue) | ApiFailed

  /** The external calls `claimBox` makes. */
  datatype ClaimCall =
    | SubmitOpenBox
    | AwaitReceipt(txHash: string)
    | PostClaim(fid: int, timestamp: int)

  /** The `method` field of the outcome (field `path` here): "on-chain", "api" or "none". */
  datatype Method = OnChain | Api | NoMethod

  /** The record `claimBox` returns; `ok` keeps the JavaScript value. */
  datatype ClaimOutcome = ClaimOutcome(ok: JsValue, path: Method, txHash: Option<string>)

  /** The calls made, in order, and the outcome. */
  datatype ClaimRun = ClaimRun(calls: seq<ClaimCall>, outcome: ClaimOutcome)

  /** The calls of the on-chain stage. */
  function OnChainCalls(onChain: OnChainResult): (calls: seq<ClaimCall>)
    ensures |calls| >= 1 && calls[0] == SubmitOpenBox
    ensures forall i :: 1 <= i < |calls| ==> calls[i] != SubmitOpenBox
    ensures forall i :: 0 <= i < |calls| ==> !calls[i].PostClaim?
  {
    match onChain
    case SubmitFailed => [SubmitOpenBox]
    case ConfirmFailed(h) => [SubmitOpenBox, AwaitReceipt(h)]
    case Confirmed(h) => [SubmitOpenBox, AwaitReceipt(h)]
  }

  /** `claimBox()` for identity `fid`, with the stage results given, and
      `apiNow` the clock reading taken when the fallback starts. */
  function ClaimBox(fid: int, onChain: OnChainResult, apiNow: int, api: ApiResult): (r: ClaimRun)
    // the on-chain stage always comes first
    ensures |r.calls| >= 1 && r.calls[0] == SubmitOpenBox
    ensures forall i :: 1 <= i < |r.calls| ==> r.calls[i] != SubmitOpenBox
    // the API request is made exactly when the on-chain stage failed, as the last call
    ensures (exists i :: 0 <= i < |r.calls| && r.calls[i].PostClaim?) <==> !onChain.Confirmed?
    ensures !onChain.Confirmed? ==> r.calls[|r.calls| - 1] == PostClaim(fid, apiNow)
    ensures forall i :: 0 <= i < |r.calls| - 1 ==> !r.calls[i].PostClaim?
    // which stage the outcome names
    ensures r.outcome.path == OnChain <==> onChain.Confirmed?
    ensures r.outcome.path == Api <==> !onChain.Confirmed? && api.ApiReply?
    ensures r.outcome.path == NoMethod <==> !onChain.Confirmed? && api.ApiFailed?
    // success
    ensures Truthy(r.outcome.ok) <==> onChain.Confirmed? || (api.ApiReply? && Truthy(api.ok))
    ensures !onChain.Confirmed? && api.ApiReply? && !Nullish(api.ok) ==> r.outcome.ok == api.ok
    ensures !onChain.Confirmed? && (api.ApiFailed? || Nullish(api.ok)) ==> r.outcome.ok == Bool(false)
    // a transaction hash only for a confirmed transaction
    ensures r.outcome.txHash.Some? <==> onChain.Confirmed?
    ensures onChain.Confirmed? ==> r.outcome == ClaimOutcome(Bool(true), OnChain, Some(onChain.txHash))
  {
    var stage := OnChainCalls(onChain);
    if onChain.Confirmed? then
      ClaimRun(stage, ClaimOutcome(Bool(true), OnChain, Some(onChain.txHash)))
    else
      var calls := stage + [PostClaim(fid, apiNow)];
      assert calls[|stage|].PostClaim?;
      match api
      case ApiReply(ok) => ClaimRun(calls, ClaimOutcome(Coalesce(ok, Bool(false)), Api, None))
      case ApiFailed => ClaimRun(calls, ClaimOutcome(Bool(false), NoMethod, None))
  }

  /** The API request is made at most once per attempt, whatever its
      arguments: every API request is the last call, carries this attempt's
      identity and clock reading, and occurs only after an on-chain failure. */
  lemma ApiAtMostOnce(fid: int, onChain: OnChainResult, apiNow: int, api: ApiResult)
    ensures var calls := ClaimBox(fid, onChain, apiNow, api).calls;
      forall i :: 0 <= i < |calls| && calls[i].PostClaim? ==>
        !onChain.Confirmed? && i == |calls| - 1 && calls[i] == PostClaim(fid, apiNow)
    ensures multiset(ClaimBox(fid, onChain, apiNow, api).calls)[PostClaim(fid, apiNow)]
            == if onChain.Confirmed? then 0 else 1
  {
    var r := ClaimBox(fid, onChain, apiNow, api);
    var stage := OnChainCalls(onChain);
    assert PostClaim(fid, apiNow) !in stage;
    if !onChain.Confirmed? {
      assert r.calls == stage + [PostClaim(fid, apiNow)];
    }
  }

  lemma ConfirmedIgnoresApi(fid: int, h: string, now1: int, api1: ApiResult, now2: int, api2: ApiResult)
    ensures ClaimBox(fid, Confirmed(h), now1, api1) == ClaimBox(fid, Confirmed(h), now2, api2)
  {
  }

  /** After any on-chain failure, whether `openBox()` or `tx.wait()` threw, the
      outcome is the API's verdict alone. */
  lemma FailureKindIrrelevant(fid: int, h: string, apiNow: int, api: ApiResult)
    ensures ClaimBox(fid, SubmitFailed, apiNow, api).outcome
            == ClaimBox(fid, ConfirmFailed(h), apiNow, api).outcome
  {
  }
}
