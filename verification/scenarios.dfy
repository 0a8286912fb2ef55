/** Demonstration scenarios that prepare the simulated board. */
module Scenarios {
  import opened Basics
  import opened Tiles
  import opened Boards

  const LightLoad: real := 0.05

  /** Light load: every tile that is not a spare carries load 0.05, every
      spare carries none; nothing else about the board changes. */
  function LightLoadScenario(b: Board): (r: Board)
    ensures r.tiles.Keys == b.tiles.Keys && r.spares == b.spares
    ensures forall id :: id in r.tiles ==>
              r.tiles[id].metrics.load == (if b.tiles[id].isSpare then 0.0 else LightLoad)
    ensures forall id :: id in r.tiles ==>
              r.tiles[id] == b.tiles[id].(metrics := b.tiles[id].metrics.(load := r.tiles[id].metrics.load))
    ensures Valid(b) ==> Valid(r)
  {
    b.(tiles := map id | id in b.tiles ::
                  var t := b.tiles[id];
                  t.(metrics := t.metrics.(load := if t.isSpare then 0.0 else LightLoad)))
  }

  /** Applying the light-load scenario twice is the same as applying it once. */
  lemma LightLoadIdempotent(b: Board)
    ensures LightLoadScenario(LightLoadScenario(b)) == LightLoadScenario(b)
  {
    var once := LightLoadScenario(b);
    var twice := LightLoadScenario(once);
    assert twice.tiles == once.tiles;
  }

  /** The light-load scenario leaves every status, and hence the available
      spare, as it was. */
  lemma LightLoadKeepsSpareChoice(b: Board)
    requires Valid(b)
    ensures FindAvailableSpare(LightLoadScenario(b)) == FindAvailableSpare(b)
  {
    var r := LightLoadScenario(b);
    FirstOkSpareDependsOnStatus(b.tiles, r.tiles, b.spares);
  }

  lemma {:induction false} FirstOkSpareDependsOnStatus(t1: map<string, Tile>, t2: map<string, Tile>, spares: seq<string>)
    requires forall i :: 0 <= i < |spares| ==> spares[i] in t1 && spares[i] in t2
    requires forall i :: 0 <= i < |spares| ==> t1[spares[i]].status == t2[spares[i]].status
    ensures FirstOkSpare(t1, spares) == FirstOkSpare(t2, spares)
    decreases |spares|
  {
    if |spares| > 0 {
      FirstOkSpareDependsOnStatus(t1, t2, spares[1..]);
    }
  }

  const DefaultFaultTile: string := "tile_3"

  /** One fault: a 30-second missing-heartbeat fault on the given tile
      (`tile_3` by default) at time `now`; an unknown tile raises. */
  function OneFaultScenario(b: Board, tileId: Option<string>, now: real, draw: Draw): (r: Result<Board, BoardError>)
    ensures r.Failure? <==> !HasTile(b, Some(tileId.GetOr(DefaultFaultTile)))
    ensures r.Success? ==>
              var id := tileId.GetOr(DefaultFaultTile);
              && OnlyTileChanged(b, r.value, id)
              && r.value.tiles[id].status == Failed
              && r.value.tiles[id].faultUntil == Some(now + 30.0)
              && r.value.tiles[id].forcedFault == Some(ForcedFault(MissingHeartbeat, map[]))
              && r.value.tiles[id].metrics.errorCount == b.tiles[id].metrics.errorCount + 3.0
              && r.value.tiles[id] == ApplyFault(b.tiles[id], MissingHeartbeat, Some(30.0), map[], now, draw)
    ensures r.Success? && Valid(b) ==> Valid(r.value)
  {
    match InjectFault(b, Some(tileId.GetOr(DefaultFaultTile)), MissingHeartbeat, Some(30.0), map[], now, draw)
    case Success((b', _)) => Success(b')
    case Failure(e) => Failure(e)
  }

  /** On a freshly built board of at least four tiles the default scenario
      fails `tile_3`, which then reports no heartbeat until the fault expires. */
  lemma OneFaultOnNewBoard(n: int, spares: int, built: real, now: real, draw: Draw, later: real)
    requires n >= 4 && later <= now + 30.0
    ensures var r := OneFaultScenario(NewBoard(n, spares, built), None, now, draw);
            r.Success? && r.value.tiles[DefaultFaultTile].status == Failed
            && !HasHeartbeat(r.value.tiles[DefaultFaultTile], later).0
  {
    TileThreeRendered();
    assert TileId(3) in TileIdSet(n);
  }
}
