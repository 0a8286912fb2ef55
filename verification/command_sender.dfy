/** The command sender of the healing software: it stamps each command with
    an id, hands it to the hardware link, and correlates incoming replies with
    the commands still waiting for one. A waiting command is an entry of the
    pending table: `None` until a reply resolves it. The hardware link's
    answer, the clock and the passage of the timeout are parameters. */
module CommandSender {
  import opened Basics
  import opened Text
  import opened Commands

  type Pending = map<string, Option<Reply>>

  /** An incoming message: a JSON object, or anything else. */
  datatype Incoming = NotADict | Dict(reply: Reply)

  /** Reply types that can resolve a waiting command. */
  predicate Correlated(reply: Reply)
  {
    reply.msgType.GetOr("") == "cmd_result" || reply.msgType.GetOr("") == "cmd_ack"
  }

  /** The pending entry an incoming message resolves, if any. */
  predicate Resolves(p: Pending, msg: Incoming, id: string)
  {
    && msg.Dict? && Correlated(msg.reply)
    && msg.reply.cmdId == Some(id) && id in p && p[id].None?
  }

  /** Offers an incoming message to the waiting commands: the first reply
      for a waiting id resolves it; everything else is ignored. */
  function FeedIncoming(p: Pending, msg: Incoming): (r: Pending)
    ensures r.Keys == p.Keys
    ensures forall id :: id in p && Resolves(p, msg, id) ==> r[id] == Some(msg.reply)
    ensures forall id :: id in p && !Resolves(p, msg, id) ==> r[id] == p[id]
    ensures msg.NotADict? || !Correlated(msg.reply) ==> r == p
  {
    if msg.NotADict? || !Correlated(msg.reply) then p
    else
      match msg.reply.cmdId
      case None => p
      case Some(id) =>
        if id in p && p[id].None? then p[id := Some(msg.reply)] else p
  }

  /** A resolved entry is never overwritten. */
  lemma FirstReplyWins(p: Pending, msg: Incoming, id: string)
    requires id in p && p[id].Some?
    ensures FeedIncoming(p, msg)[id] == p[id]
  {
  }

  /** An acknowledgement followed by the result leaves the acknowledgement as
      the command's answer. */
  lemma AckThenResult(p: Pending, id: string, ack: Reply, result: Reply)
    requires id in p && p[id].None?
    requires ack.msgType == Some("cmd_ack") && ack.cmdId == Some(id)
    requires result.msgType == Some("cmd_result") && result.cmdId == Some(id)
    ensures FeedIncoming(FeedIncoming(p, Dict(ack)), Dict(result))[id] == Some(ack)
  {
  }

  // ---------------------------------------------------------------------------
  // Sending
  // ---------------------------------------------------------------------------

  datatype SendOutcome = HalSendFailed | Sent | Awaiting(cmdId: string)

  /** The command as stamped, the pending table, and what happened. */
  datatype SendStart = SendStart(cmd: Command, pending: Pending, outcome: SendOutcome)

  /** The id given to a command without one, from the clock in milliseconds. */
  function GeneratedId(clock: real): (id: string)
    ensures |id| > 4 && id[..4] == "cmd_"
  {
    "cmd_" + IntToString(Trunc(clock * 1000.0))
  }

  /** The id a command is sent under: its own when non-empty, otherwise one
      generated from the clock. */
  function IdFor(cmd: Command, clock: real): (id: string)
    ensures Truthy(cmd.cmdId) ==> id == cmd.cmdId.value
    ensures !Truthy(cmd.cmdId) ==> id == GeneratedId(clock)
    ensures id != ""
  {
    if Truthy(cmd.cmdId) then cmd.cmdId.value else GeneratedId(clock)
  }

  /** The first half of sending: the id is written back into the command,
      the command goes to the hardware link (whose answer is `halOk`), and,
      when a result is expected, a waiting entry is registered. A failed send
      raises before anything is registered. */
  function BeginSend(p: Pending, cmd: Command, clock: real, halOk: bool, expectResult: bool): (r: SendStart)
    ensures r.cmd == cmd.(cmdId := Some(IdFor(cmd, clock)))
    ensures Truthy(cmd.cmdId) ==> r.cmd == cmd
    ensures !halOk ==> r.outcome == HalSendFailed && r.pending == p
    ensures halOk && !expectResult ==> r.outcome == Sent && r.pending == p
    ensures halOk && expectResult ==>
              r.outcome == Awaiting(IdFor(cmd, clock)) && r.pending == p[IdFor(cmd, clock) := None]
  {
    var id := IdFor(cmd, clock);
    var stamped := cmd.(cmdId := Some(id));
    if !halOk then SendStart(stamped, p, HalSendFailed)
    else if !expectResult then SendStart(stamped, p, Sent)
    else SendStart(stamped, p[id := None], Awaiting(id))
  }

  datatype WaitOutcome = Resolved(reply: Reply) | TimedOut

  /** The second half: when the wait ends (by a reply or by the timeout), the
      entry is removed either way; the answer is the reply if one arrived. */
  function FinishWait(p: Pending, id: string): (r: (Pending, WaitOutcome))
    ensures r.0 == p - {id}
    ensures id !in r.0
    ensures id in p && p[id].Some? ==> r.1 == Resolved(p[id].value)
    ensures !(id in p && p[id].Some?) ==> r.1 == TimedOut
  {
    var outcome := if id in p && p[id].Some? then Resolved(p[id].value) else TimedOut;
    (p - {id}, outcome)
  }

  /** A full exchange: a command sent while no other command waits under its
      id, answered by a matching result, returns that result and leaves the
      pending table as it was. */
  lemma SendReplyRoundTrip(p: Pending, cmd: Command, clock: real, result: Reply)
    requires IdFor(cmd, clock) !in p
    requires result.msgType == Some("cmd_result") && result.cmdId == Some(IdFor(cmd, clock))
    ensures var s := BeginSend(p, cmd, clock, true, true);
            var w := FinishWait(FeedIncoming(s.pending, Dict(result)), IdFor(cmd, clock));
            w.1 == Resolved(result) && w.0 == p
  {
    var id := IdFor(cmd, clock);
    var s := BeginSend(p, cmd, clock, true, true);
    var fed := FeedIncoming(s.pending, Dict(result));
    assert fed == p[id := Some(result)];
    assert fed - {id} == p;
  }

  /** Without a reply the wait times out and the entry is still removed. */
  lemma SendTimeout(p: Pending, cmd: Command, clock: real)
    requires IdFor(cmd, clock) !in p
    ensures var s := BeginSend(p, cmd, clock, true, true);
            var w := FinishWait(s.pending, IdFor(cmd, clock));
            w.1 == TimedOut && w.0 == p
  {
    var id := IdFor(cmd, clock);
    assert p[id := None] - {id} == p;
  }
}
