/** What the three chunked executions share: defaults of their parameters, and how they answer. */
module Requests {
  import opened Prelude

  /** The bytes of a pixel in each mode; any other mode has four. */
  function ChannelsOf(mode: string): (channels: nat)
    ensures channels == 3 <==> mode == "RGB"
    ensures channels == 1 <==> mode == "L"
    ensures mode !in {"RGB", "L"} ==> channels == 4
  {
    if mode == "RGB" then 3 else if mode == "L" then 1 else 4
  }

  /** The chunks asked for, or one for each worker and at least two; never more than there are rows. */
  function ChunkTarget(requestedChunks: int, effectiveWorkerCount: nat, rows: int): (target: int)
    ensures target <= rows
    ensures 0 < requestedChunks <= rows ==> target == requestedChunks
    ensures requestedChunks > rows && requestedChunks > 0 ==> target == rows
    ensures requestedChunks <= 0 && effectiveWorkerCount <= 2 <= rows ==> target == 2
    ensures requestedChunks <= 0 && 2 <= effectiveWorkerCount <= rows ==> target == effectiveWorkerCount
    ensures requestedChunks <= 0 && rows <= Max(2, effectiveWorkerCount) ==> target == rows
  {
    Min(if requestedChunks > 0 then requestedChunks else Max(2, effectiveWorkerCount), rows)
  }

  /** A partitioner's error escapes; any later one is answered. */
  datatype Reply<+T, +E> = COMPLETED(output: T) | FAILED | LOCAL_FALLBACK | Thrown(error: E)

  /** A workload that must not run locally has failed; any other one is handed back. */
  function Failure<T, E>(isForceSwarm: bool): (reply: Reply<T, E>)
    ensures reply == FAILED <==> isForceSwarm
    ensures reply == LOCAL_FALLBACK <==> !isForceSwarm
  {
    if isForceSwarm then FAILED else LOCAL_FALLBACK
  }
}
