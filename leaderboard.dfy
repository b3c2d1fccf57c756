/** The status query `getRankAndPoints`: the identity's score and its
    1-based rank, read from the leaderboard store in one pipelined request. */
module Leaderboard {
  import opened Js

  /** The parsed pipeline reply, given as the values of `data[0]?.result`
      (the ZSCORE result, Undefined when missing) and `data[1]?.result` (the
      0-based ZREVRANK index, None when missing or null), or a failure of the
      request, of the parse, or of indexing a null reply. */
  datatype PipelineReply =
    | PipelineResults(score: JsValue, revRank: Option<int>)
    | PipelineFailed

  /** The `{ points, rank }` record, with "N/A" for an unknown field. */
  datatype Standing = Standing(points: JsValue, rank: JsValue)

  function GetRankAndPoints(reply: PipelineReply): (r: Standing)
    ensures reply.PipelineFailed? ==> r == Standing(NotAvailable, NotAvailable)
    ensures reply.PipelineResults? && !Nullish(reply.score) ==> r.points == reply.score
    ensures reply.PipelineResults? && Nullish(reply.score) ==> r.points == NotAvailable
    ensures r.rank.Num? <==> reply.PipelineResults? && reply.revRank.Some?
    ensures !r.rank.Num? ==> r.rank == NotAvailable
    ensures r.rank.Num? ==> r.rank.n == reply.revRank.value + 1
    ensures r.rank.Num? && reply.revRank.value >= 0 ==> r.rank.n >= 1
  {
    match reply
    case PipelineResults(score, revRank) =>
      Standing(Coalesce(score, NotAvailable),
               if revRank.Some? then Num(revRank.value + 1) else NotAvailable)
    case PipelineFailed => Standing(NotAvailable, NotAvailable)
  }

  /** The store's 0-based index behind a reported rank. */
  function RevRankOf(rank: JsValue): Option<int> {
    if rank.Num? then Some(rank.n - 1) else None
  }

  /** The reported rank determines the ZREVRANK index: ranks are the indices shifted by one. */
  lemma RankRoundTrip(reply: PipelineReply)
    ensures RevRankOf(GetRankAndPoints(reply).rank)
            == if reply.PipelineResults? then reply.revRank else None
  {
  }

  /** The top of the leaderboard (index 0) is reported as rank 1. */
  lemma TopIsRankOne(score: JsValue, revRank: Option<int>)
    ensures GetRankAndPoints(PipelineResults(score, revRank)).rank == Num(1)
            <==> revRank == Some(0)
  {
  }
}
