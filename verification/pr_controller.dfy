/** The partial-reconfiguration controller of the simulated hardware: it
    carries out one reconfiguration command on the board and answers with a
    `cmd_result`. The sleeps, the elapsed wall-clock time and the random
    failure draw are parameters. */
module PrController {
  import opened Basics
  import opened Text
  import opened Tiles
  import opened Boards
  import opened Commands

  datatype CmdResult = CmdResult(
    msgType: string,
    cmdId: Option<string>,
    status: string,
    durationMs: int,
    sandboxPassed: bool)

  /** The board after the command's action: a fast swap onto a named spare,
      a partial reconfiguration (which clears the target's fault), an
      isolation, or nothing for any other action. Errors of the action are
      swallowed. */
  function ApplyAction(b: Board, cmd: Command): (r: Board)
    requires Valid(b)
    ensures Valid(r)
    ensures cmd.action == Some("fast_swap") && Truthy(cmd.spareId) ==>
              r == PerformFastSwap(b, cmd.targetNode, cmd.spareId.value).0
    ensures cmd.action == Some("partial_reconfig") && HasTile(b, cmd.targetNode) ==>
              OnlyTileChanged(b, r, cmd.targetNode.value)
              && r.tiles[cmd.targetNode.value] == ClearFault(b.tiles[cmd.targetNode.value])
    ensures cmd.action == Some("partial_reconfig") && !HasTile(b, cmd.targetNode) ==> r == b
    ensures cmd.action == Some("isolate") ==> r == IsolateTile(b, cmd.targetNode)
    ensures cmd.action !in {Some("fast_swap"), Some("partial_reconfig"), Some("isolate")} ==> r == b
    ensures cmd.action == Some("fast_swap") && !Truthy(cmd.spareId) ==> r == b
  {
    if cmd.action == Some("fast_swap") && Truthy(cmd.spareId) then
      PerformFastSwap(b, cmd.targetNode, cmd.spareId.value).0
    else if cmd.action == Some("partial_reconfig") then
      match ClearTileFault(b, cmd.targetNode)
      case Success((b', _)) => b'
      case Failure(_) => b
    else if cmd.action == Some("isolate") then
      IsolateTile(b, cmd.targetNode)
    else
      b
  }

  /** Handles one `cmd_reconfigure`: applies the action, then reports
      `failed` (sandbox not passed) when the failure draw says so and
      `success` otherwise, with the elapsed time in whole milliseconds. */
  function HandleReconfigure(b: Board, cmd: Command, failed: bool, elapsedSeconds: real): (r: (Board, CmdResult))
    requires Valid(b)
    ensures r.0 == ApplyAction(b, cmd)
    ensures r.1.msgType == "cmd_result" && r.1.cmdId == cmd.cmdId
    ensures r.1.status == "failed" <==> failed
    ensures r.1.status == "success" <==> !failed
    ensures r.1.sandboxPassed <==> !failed
    ensures elapsedSeconds >= 0.0 ==>
              0 <= r.1.durationMs && r.1.durationMs as real <= elapsedSeconds * 1000.0 < r.1.durationMs as real + 1.0
  {
    var b' := ApplyAction(b, cmd);
    var ms := Trunc(elapsedSeconds * 1000.0);
    if failed then (b', CmdResult("cmd_result", cmd.cmdId, "failed", ms, false))
    else (b', CmdResult("cmd_result", cmd.cmdId, "success", ms, true))
  }

  /** The result does not depend on the board or on what the action did: a
      swap onto a tile that is not a spare still reports success unless the
      failure draw says otherwise. */
  lemma ResultIndependentOfBoard(b1: Board, b2: Board, cmd: Command, failed: bool, elapsedSeconds: real)
    requires Valid(b1) && Valid(b2)
    ensures HandleReconfigure(b1, cmd, failed, elapsedSeconds).1 == HandleReconfigure(b2, cmd, failed, elapsedSeconds).1
  {
  }

  /** A fast swap naming a spare that is not in the spare list changes
      nothing and is still reported as a success when the draw does not fail. */
  lemma RejectedSwapReportsSuccess(b: Board, cmd: Command, elapsedSeconds: real)
    requires Valid(b)
    requires cmd.action == Some("fast_swap") && Truthy(cmd.spareId) && cmd.spareId.value !in b.spares
    ensures HandleReconfigure(b, cmd, false, elapsedSeconds).0 == b
    ensures HandleReconfigure(b, cmd, false, elapsedSeconds).1.status == "success"
  {
  }
}
