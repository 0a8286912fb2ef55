/** Turning an incoming `fault_event` message into a fault on the board. */
module FaultInjector {
  import opened Basics
  import opened Tiles
  import opened Boards

  /** The fields of a `fault_event` message the injector reads. */
  datatype FaultEventMsg = FaultEventMsg(
    nodeId: Option<string>,
    faultType: Option<string>,
    severity: Option<string>,
    evidence: Option<map<string, real>>)

  /** What the injector answers: the board's own confirmation, or an error
      object in place of the exception the board raised. */
  datatype InjectReply = InjectedReply(injected: Injected) | ErrorReply(reason: BoardError)

  const ManualInject: string := "manual_inject"

  /** How long a fault of the given severity lasts; a missing severity counts
      as `major`. */
  function SeverityDuration(severity: Option<string>): (d: Option<real>)
    ensures severity == Some("critical") <==> d.None?
    ensures d.Some? ==> (d.value == 60.0 <==> severity.None? || severity == Some("major"))
    ensures d.Some? ==> (d.value == 10.0 <==> severity.Some? && severity.value != "critical"
                                              && severity.value != "major")
  {
    var s := severity.GetOr("major");
    if s == "critical" then None
    else if s == "major" then Some(60.0)
    else Some(10.0)
  }

  /** Injects the fault a message describes at time `now`. An unknown or
      missing node leaves the board unchanged and answers with an error. */
  function InjectFromMessage(b: Board, msg: FaultEventMsg, now: real, draw: Draw): (r: (Board, InjectReply))
    ensures r.1.ErrorReply? <==> !HasTile(b, msg.nodeId)
    ensures r.1.ErrorReply? ==> r.0 == b && r.1.reason == UnknownTile(msg.nodeId)
    ensures r.1.InjectedReply? ==>
              && r.1.injected == Injected(msg.nodeId.value, msg.faultType.GetOr(ManualInject))
              && OnlyTileChanged(b, r.0, msg.nodeId.value)
              && r.0.tiles[msg.nodeId.value]
                 == ApplyFault(b.tiles[msg.nodeId.value], msg.faultType.GetOr(ManualInject),
                               SeverityDuration(msg.severity), msg.evidence.GetOr(map[]), now, draw)
    ensures Valid(b) ==> Valid(r.0)
  {
    var faultType := msg.faultType.GetOr(ManualInject);
    var params := msg.evidence.GetOr(map[]);
    match InjectFault(b, msg.nodeId, faultType, SeverityDuration(msg.severity), params, now, draw)
    case Success((b', injected)) => (b', InjectedReply(injected))
    case Failure(e) => (b, ErrorReply(e))
  }

  /** A message without a fault type injects `manual_inject`, which takes the
      tile's generic branch: the tile is degraded and gains one error. */
  lemma MissingFaultTypeIsGeneric(b: Board, msg: FaultEventMsg, now: real, draw: Draw)
    requires HasTile(b, msg.nodeId) && msg.faultType.None?
    ensures var r := InjectFromMessage(b, msg, now, draw);
            var before := b.tiles[msg.nodeId.value];
            && r.1 == InjectedReply(Injected(msg.nodeId.value, ManualInject))
            && r.0.tiles[msg.nodeId.value].status == Degraded
            && r.0.tiles[msg.nodeId.value].metrics.errorCount == before.metrics.errorCount + 1.0
  {
    assert !KnownFault(ManualInject);
  }

  /** A message with no severity gives the fault a 60-second lifetime. */
  lemma MissingSeverityIsMajor(b: Board, msg: FaultEventMsg, now: real, draw: Draw)
    requires HasTile(b, msg.nodeId) && msg.severity.None?
    ensures InjectFromMessage(b, msg, now, draw).0.tiles[msg.nodeId.value].faultUntil == Some(now + 60.0)
  {
  }

  /** A critical fault never expires. */
  lemma CriticalNeverExpires(b: Board, msg: FaultEventMsg, now: real, draw: Draw)
    requires HasTile(b, msg.nodeId) && msg.severity == Some("critical")
    ensures InjectFromMessage(b, msg, now, draw).0.tiles[msg.nodeId.value].faultUntil.None?
  {
  }
}
