/** The fault detector of the healing software: it classifies each incoming
    telemetry message, remembers when each node was last heard from, and
    after every message sweeps for nodes whose heartbeat is overdue. The
    arrival time (the default timestamp) and the sweep time are parameters. */
module FaultDetector {
  import opened Basics
  import opened Text

  /** The fields of a telemetry message the detector reads. */
  datatype TelemetryMsg = TelemetryMsg(
    msgType: Option<string>,
    timestamp: Option<real>,
    nodeId: Option<string>,
    node: Option<string>,
    metrics: Option<map<string, real>>,
    statusCode: Option<real>)

  datatype Evidence =
    | CountEvidence(errorCount: real, statusCode: real)
    | GapEvidence(lastSeenMsAgo: real)

  datatype FaultEvent = FaultEvent(
    faultId: string,
    nodeId: string,
    faultType: string,
    severity: string,
    timestamp: real,
    evidence: Evidence)

  /** What reaches the fault callback: an event the detector built, or a
      `fault_event` message passed through unchanged. */
  datatype Emitted = Detected(event: FaultEvent) | Forwarded(msg: TelemetryMsg)

  /** `order` lists the nodes in the order they were first heard from (the
      iteration order of the last-seen dictionary). */
  datatype Detector = Detector(
    lastSeen: map<string, real>,
    order: seq<string>,
    nodeMetrics: map<string, map<string, real>>,
    heartbeatTimeoutMs: int,
    errorThreshold: int)

  const ErrorCountExceeded: string := "error_count_exceeded"
  const StatusNonzero: string := "status_nonzero"
  const MissingHeartbeat: string := "missing_heartbeat"

  /** A fresh detector with the given thresholds (by default 50 ms and 5). */
  function NewDetector(heartbeatTimeoutMs: int, errorThreshold: int): (d: Detector)
    ensures Valid(d) && d.lastSeen == map[] && d.nodeMetrics == map[] && d.order == []
    ensures d.heartbeatTimeoutMs == heartbeatTimeoutMs && d.errorThreshold == errorThreshold
  {
    Detector(map[], [], map[], heartbeatTimeoutMs, errorThreshold)
  }

  /** Each known node appears exactly once in the iteration order. */
  predicate Valid(d: Detector)
  {
    && Distinct(d.order)
    && (forall n :: n in d.lastSeen ==> n in d.order)
    && (forall i :: 0 <= i < |d.order| ==> d.order[i] in d.lastSeen)
  }

  // ---------------------------------------------------------------------------
  // Classification of one node message
  // ---------------------------------------------------------------------------

  /** The status code a node message reports: the top-level one when it is
      nonzero, otherwise the one among the metrics (0 when absent). */
  function StatusCodeOf(statusCode: Option<real>, metrics: map<string, real>): (c: real)
    ensures statusCode.Some? && statusCode.value != 0.0 ==> c == statusCode.value
    ensures !(statusCode.Some? && statusCode.value != 0.0) ==> c == Lookup(metrics, "status_code", 0.0)
  {
    if statusCode.GetOr(0.0) != 0.0 then statusCode.value else Lookup(metrics, "status_code", 0.0)
  }

  /** The fault a node message reveals, if any: too many errors (major)
      takes precedence over a nonzero status code (minor). */
  function Classify(node: string, ts: real, metrics: map<string, real>, statusCode: Option<real>,
                    threshold: int): (r: Option<FaultEvent>)
    ensures var ec := Lookup(metrics, "error_count", 0.0);
            var code := StatusCodeOf(statusCode, metrics);
            && (r.Some? <==> ec >= threshold as real || code != 0.0)
            && (r.Some? ==> r.value.nodeId == node && r.value.timestamp == ts
                            && r.value.evidence == CountEvidence(ec, code)
                            && r.value.faultId == "fault_" + node + "_" + IntToString(Trunc(ts)))
            && (ec >= threshold as real ==>
                  r.Some? && r.value.faultType == ErrorCountExceeded && r.value.severity == "major")
            && (ec < threshold as real && code != 0.0 ==>
                  r.Some? && r.value.faultType == StatusNonzero && r.value.severity == "minor")
  {
    var ec := Lookup(metrics, "error_count", 0.0);
    var code := StatusCodeOf(statusCode, metrics);
    var id := "fault_" + node + "_" + IntToString(Trunc(ts));
    if ec >= threshold as real then
      Some(FaultEvent(id, node, ErrorCountExceeded, "major", ts, CountEvidence(ec, code)))
    else if code != 0.0 then
      Some(FaultEvent(id, node, StatusNonzero, "minor", ts, CountEvidence(ec, code)))
    else
      None
  }

  /** Records that `node` was heard from at `ts` with the given metrics. */
  function Remember(d: Detector, node: string, ts: real, metrics: map<string, real>): (r: Detector)
    requires Valid(d)
    ensures Valid(r)
    ensures r.lastSeen == d.lastSeen[node := ts]
    ensures r.nodeMetrics == d.nodeMetrics[node := metrics]
    ensures node in d.lastSeen ==> r.order == d.order
    ensures node !in d.lastSeen ==> r.order == d.order + [node]
    ensures r.heartbeatTimeoutMs == d.heartbeatTimeoutMs && r.errorThreshold == d.errorThreshold
  {
    var order := if node in d.lastSeen then d.order else d.order + [node];
    var r := d.(lastSeen := d.lastSeen[node := ts], order := order,
                nodeMetrics := d.nodeMetrics[node := metrics]);
    assert Distinct(order) by {
      if node !in d.lastSeen {
        forall i, j | 0 <= i < j < |order|
          ensures order[i] != order[j]
        {
          if j == |d.order| {
            assert order[i] == d.order[i];
            assert order[i] in d.order;
          }
        }
      }
    }
    r
  }

  // ---------------------------------------------------------------------------
  // Heartbeat-gap sweep
  // ---------------------------------------------------------------------------

  /** Milliseconds since `last`, seen at time `now` (both in seconds). */
  function GapMs(last: real, now: real): real
  {
    (now - last) * 1000.0
  }

  predicate Overdue(last: real, now: real, timeoutMs: int)
  {
    GapMs(last, now) > timeoutMs as real
  }

  /** The report for a node last heard from at `last`: a missing heartbeat,
      critical when the gap exceeds five times the timeout, major otherwise. */
  function GapEvent(node: string, last: real, now: real, timeoutMs: int): (e: FaultEvent)
    ensures e.nodeId == node && e.faultType == MissingHeartbeat && e.timestamp == now
    ensures e.evidence == GapEvidence(GapMs(last, now))
    ensures e.severity == "critical" <==> GapMs(last, now) > 5.0 * timeoutMs as real
    ensures e.severity != "critical" ==> e.severity == "major"
    ensures e.faultId == "hb_miss_" + node + "_" + IntToString(Trunc(now))
  {
    var gap := GapMs(last, now);
    FaultEvent("hb_miss_" + node + "_" + IntToString(Trunc(now)), node, MissingHeartbeat,
               if gap > 5.0 * timeoutMs as real then "critical" else "major", now, GapEvidence(gap))
  }

  /** 1 when `node` is known and overdue, else 0. */
  function OverdueBit(lastSeen: map<string, real>, node: string, now: real, timeoutMs: int): nat
  {
    if node in lastSeen && Overdue(lastSeen[node], now, timeoutMs) then 1 else 0
  }

  /** How many of `nodes` are overdue (known and past the timeout). */
  function OverdueCount(lastSeen: map<string, real>, nodes: seq<string>, now: real, timeoutMs: int): (c: nat)
    ensures c <= |nodes|
    decreases |nodes|
  {
    if |nodes| == 0 then 0
    else OverdueBit(lastSeen, nodes[0], now, timeoutMs) + OverdueCount(lastSeen, nodes[1..], now, timeoutMs)
  }

  /** Counting overdue nodes adds up over a split of the list. */
  lemma {:induction false} OverdueCountSplit(lastSeen: map<string, real>, a: seq<string>, b: seq<string>,
                                             now: real, timeoutMs: int)
    ensures OverdueCount(lastSeen, a + b, now, timeoutMs)
            == OverdueCount(lastSeen, a, now, timeoutMs) + OverdueCount(lastSeen, b, now, timeoutMs)
    decreases |a|
  {
    if |a| > 0 {
      assert (a + b)[0] == a[0];
      assert (a + b)[1..] == a[1..] + b;
      OverdueCountSplit(lastSeen, a[1..], b, now, timeoutMs);
    } else {
      assert a + b == b;
    }
  }

  /** The count over a non-empty prefix: the first node, then the rest. */
  lemma PrefixCount(lastSeen: map<string, real>, nodes: seq<string>, i: nat, now: real, timeoutMs: int)
    requires 0 < i <= |nodes|
    ensures OverdueCount(lastSeen, nodes[..i], now, timeoutMs)
            == OverdueBit(lastSeen, nodes[0], now, timeoutMs) + OverdueCount(lastSeen, nodes[1..][..i - 1], now, timeoutMs)
  {
    assert nodes[..i][0] == nodes[0];
    assert nodes[..i][1..] == nodes[1..][..i - 1];
  }

  /** The events of a sweep over `nodes`, in that order, judged against the
      last-seen times as they were when the sweep began (see
      `SweepEventsInOrder` for where each report sits). */
  function SweepEvents(lastSeen: map<string, real>, nodes: seq<string>, now: real, timeoutMs: int): (r: seq<FaultEvent>)
    requires forall i :: 0 <= i < |nodes| ==> nodes[i] in lastSeen
    ensures |r| == OverdueCount(lastSeen, nodes, now, timeoutMs)
    ensures (forall i :: 0 <= i < |nodes| ==> !Overdue(lastSeen[nodes[i]], now, timeoutMs)) ==> r == []
    decreases |nodes|
  {
    if |nodes| == 0 then []
    else
      var node := nodes[0];
      var rest := SweepEvents(lastSeen, nodes[1..], now, timeoutMs);
      assert forall i :: 1 <= i < |nodes| ==> nodes[i] == nodes[1..][i - 1];
      if Overdue(lastSeen[node], now, timeoutMs) then
        [GapEvent(node, lastSeen[node], now, timeoutMs)] + rest
      else
        rest
  }

  /** One step of the sweep: the first node's report, if any, then the rest. */
  lemma SweepEventsStep(lastSeen: map<string, real>, nodes: seq<string>, now: real, timeoutMs: int)
    requires forall i :: 0 <= i < |nodes| ==> nodes[i] in lastSeen
    requires |nodes| > 0
    ensures forall i :: 0 <= i < |nodes[1..]| ==> nodes[1..][i] in lastSeen
    ensures SweepEvents(lastSeen, nodes, now, timeoutMs)
            == (if Overdue(lastSeen[nodes[0]], now, timeoutMs)
                then [GapEvent(nodes[0], lastSeen[nodes[0]], now, timeoutMs)] else [])
               + SweepEvents(lastSeen, nodes[1..], now, timeoutMs)
  {
    assert forall i :: 1 <= i < |nodes| ==> nodes[i] == nodes[1..][i - 1];
  }

  /** Every report of the sweep is the gap report of an overdue node. */
  lemma {:induction false} SweepEventsSound(lastSeen: map<string, real>, nodes: seq<string>, now: real, timeoutMs: int)
    requires forall i :: 0 <= i < |nodes| ==> nodes[i] in lastSeen
    ensures forall e :: e in SweepEvents(lastSeen, nodes, now, timeoutMs) ==>
              && e.nodeId in nodes && Overdue(lastSeen[e.nodeId], now, timeoutMs)
              && e == GapEvent(e.nodeId, lastSeen[e.nodeId], now, timeoutMs)
    decreases |nodes|
  {
    if |nodes| > 0 {
      SweepEventsStep(lastSeen, nodes, now, timeoutMs);
      SweepEventsSound(lastSeen, nodes[1..], now, timeoutMs);
      assert forall x :: x in nodes[1..] ==> x in nodes;
    }
  }

  /** Every overdue node gets its gap report. */
  lemma {:induction false} SweepEventsComplete(lastSeen: map<string, real>, nodes: seq<string>, now: real, timeoutMs: int)
    requires forall i :: 0 <= i < |nodes| ==> nodes[i] in lastSeen
    ensures forall i :: 0 <= i < |nodes| && Overdue(lastSeen[nodes[i]], now, timeoutMs) ==>
              GapEvent(nodes[i], lastSeen[nodes[i]], now, timeoutMs) in SweepEvents(lastSeen, nodes, now, timeoutMs)
    decreases |nodes|
  {
    if |nodes| > 0 {
      var tail := nodes[1..];
      SweepEventsStep(lastSeen, nodes, now, timeoutMs);
      SweepEventsComplete(lastSeen, tail, now, timeoutMs);
      assert forall k :: 0 < k < |nodes| ==> nodes[k] == tail[k - 1];
    }
  }

  /** The report for the `i`-th node, when it is overdue, sits right after
      the reports for the overdue nodes before it. */
  lemma {:induction false} SweepEventsInOrder(lastSeen: map<string, real>, nodes: seq<string>, now: real, timeoutMs: int)
    requires forall i :: 0 <= i < |nodes| ==> nodes[i] in lastSeen
    ensures forall i :: 0 <= i < |nodes| && Overdue(lastSeen[nodes[i]], now, timeoutMs) ==>
              ReportAt(lastSeen, nodes, now, timeoutMs, i)
    decreases |nodes|
  {
    if |nodes| > 0 {
      var tail := nodes[1..];
      assert forall k :: 0 <= k < |tail| ==> tail[k] == nodes[k + 1];
      SweepEventsInOrder(lastSeen, tail, now, timeoutMs);
      forall i | 0 <= i < |nodes| && Overdue(lastSeen[nodes[i]], now, timeoutMs)
        ensures ReportAt(lastSeen, nodes, now, timeoutMs, i)
      {
        if i == 0 {
          ReportAtFirst(lastSeen, nodes, now, timeoutMs);
        } else {
          assert tail[i - 1] == nodes[i];
          ReportAtNext(lastSeen, nodes, now, timeoutMs, i);
        }
      }
    }
  }

  /** The sweep's report for `nodes[i]` sits at the number of overdue nodes
      before it. */
  predicate ReportAt(lastSeen: map<string, real>, nodes: seq<string>, now: real, timeoutMs: int, i: nat)
    requires forall k :: 0 <= k < |nodes| ==> nodes[k] in lastSeen
    requires i < |nodes|
  {
    var r := SweepEvents(lastSeen, nodes, now, timeoutMs);
    var p := OverdueCount(lastSeen, nodes[..i], now, timeoutMs);
    p < |r| && r[p] == GapEvent(nodes[i], lastSeen[nodes[i]], now, timeoutMs)
  }

  lemma ReportAtFirst(lastSeen: map<string, real>, nodes: seq<string>, now: real, timeoutMs: int)
    requires forall k :: 0 <= k < |nodes| ==> nodes[k] in lastSeen
    requires |nodes| > 0 && Overdue(lastSeen[nodes[0]], now, timeoutMs)
    ensures ReportAt(lastSeen, nodes, now, timeoutMs, 0)
  {
    SweepEventsStep(lastSeen, nodes, now, timeoutMs);
    assert nodes[..0] == [];
  }

  lemma ReportAtNext(lastSeen: map<string, real>, nodes: seq<string>, now: real, timeoutMs: int, i: nat)
    requires forall k :: 0 <= k < |nodes| ==> nodes[k] in lastSeen
    requires 0 < i < |nodes|
    requires forall k :: 0 <= k < |nodes[1..]| ==> nodes[1..][k] in lastSeen
    requires ReportAt(lastSeen, nodes[1..], now, timeoutMs, i - 1)
    ensures ReportAt(lastSeen, nodes, now, timeoutMs, i)
  {
    var tail := nodes[1..];
    SweepEventsStep(lastSeen, nodes, now, timeoutMs);
    PrefixCount(lastSeen, nodes, i, now, timeoutMs);
    var k := OverdueCount(lastSeen, tail[..i - 1], now, timeoutMs);
    var rest := SweepEvents(lastSeen, tail, now, timeoutMs);
    var head: seq<FaultEvent> := if Overdue(lastSeen[nodes[0]], now, timeoutMs)
                                 then [GapEvent(nodes[0], lastSeen[nodes[0]], now, timeoutMs)] else [];
    assert tail[i - 1] == nodes[i];
    ConcatIndex(head, rest, k, OverdueCount(lastSeen, nodes[..i], now, timeoutMs));
  }

  lemma ConcatIndex<T>(a: seq<T>, b: seq<T>, k: nat, p: nat)
    requires k < |b| && p == |a| + k
    ensures p < |a + b| && (a + b)[p] == b[k]
  {
  }

  /** With no node listed twice, no report is repeated. */
  lemma {:induction false} SweepEventsDistinct(lastSeen: map<string, real>, nodes: seq<string>, now: real, timeoutMs: int)
    requires forall i :: 0 <= i < |nodes| ==> nodes[i] in lastSeen
    requires Distinct(nodes)
    ensures Distinct(SweepEvents(lastSeen, nodes, now, timeoutMs))
    decreases |nodes|
  {
    if |nodes| > 0 {
      var node, tail := nodes[0], nodes[1..];
      SweepEventsStep(lastSeen, nodes, now, timeoutMs);
      assert Distinct(tail) by {
        assert forall k :: 0 <= k < |tail| ==> tail[k] == nodes[k + 1];
      }
      SweepEventsDistinct(lastSeen, tail, now, timeoutMs);
      SweepEventsSound(lastSeen, tail, now, timeoutMs);
      var rest := SweepEvents(lastSeen, tail, now, timeoutMs);
      if Overdue(lastSeen[node], now, timeoutMs) {
        var x := GapEvent(node, lastSeen[node], now, timeoutMs);
        assert node !in tail by {
          assert forall k :: 0 <= k < |tail| ==> tail[k] == nodes[k + 1];
        }
        assert x !in rest;
        DistinctCons(x, rest);
      }
    }
  }

  lemma DistinctCons<T>(x: T, s: seq<T>)
    requires Distinct(s) && x !in s
    ensures Distinct([x] + s)
  {
    var r := [x] + s;
    forall i, j | 0 <= i < j < |r|
      ensures r[i] != r[j]
    {
      assert r[j] == s[j - 1];
      if i > 0 {
        assert r[i] == s[i - 1];
      }
    }
  }

  /** An overdue node adds one to the count of every longer prefix. */
  lemma OverdueCountGrows(lastSeen: map<string, real>, nodes: seq<string>, now: real, timeoutMs: int, i: nat, j: nat)
    requires i < j <= |nodes| && OverdueBit(lastSeen, nodes[i], now, timeoutMs) == 1
    ensures OverdueCount(lastSeen, nodes[..i], now, timeoutMs) < OverdueCount(lastSeen, nodes[..j], now, timeoutMs)
  {
    var x := nodes[i];
    assert OverdueCount(lastSeen, [x], now, timeoutMs) == 1 by {
      assert [x][0] == x && [x][1..] == [];
    }
    assert nodes[..i + 1] == nodes[..i] + [x];
    OverdueCountSplit(lastSeen, nodes[..i], [x], now, timeoutMs);
    assert nodes[..j] == nodes[..i + 1] + nodes[i + 1..j];
    OverdueCountSplit(lastSeen, nodes[..i + 1], nodes[i + 1..j], now, timeoutMs);
  }

  /** Two overdue nodes are reported in the order they appear in `nodes`. */
  lemma SweepKeepsOrder(lastSeen: map<string, real>, nodes: seq<string>, now: real, timeoutMs: int, i: nat, j: nat)
    requires forall k :: 0 <= k < |nodes| ==> nodes[k] in lastSeen
    requires i < j < |nodes|
    requires Overdue(lastSeen[nodes[i]], now, timeoutMs) && Overdue(lastSeen[nodes[j]], now, timeoutMs)
    ensures var r := SweepEvents(lastSeen, nodes, now, timeoutMs);
            var p := OverdueCount(lastSeen, nodes[..i], now, timeoutMs);
            var q := OverdueCount(lastSeen, nodes[..j], now, timeoutMs);
            && p < q < |r|
            && r[p] == GapEvent(nodes[i], lastSeen[nodes[i]], now, timeoutMs)
            && r[q] == GapEvent(nodes[j], lastSeen[nodes[j]], now, timeoutMs)
  {
    SweepEventsInOrder(lastSeen, nodes, now, timeoutMs);
    assert ReportAt(lastSeen, nodes, now, timeoutMs, i) && ReportAt(lastSeen, nodes, now, timeoutMs, j);
    OverdueCountGrows(lastSeen, nodes, now, timeoutMs, i, j);
  }

  /** The sweep at time `now`: every overdue node is reported and its
      last-seen time moved to `now`, so that it is not reported again at once. */
  function Sweep(d: Detector, now: real): (r: (Detector, seq<FaultEvent>))
    requires Valid(d)
    ensures Valid(r.0)
    ensures r.0.order == d.order && r.0.nodeMetrics == d.nodeMetrics && r.0.lastSeen.Keys == d.lastSeen.Keys
    ensures r.0.heartbeatTimeoutMs == d.heartbeatTimeoutMs && r.0.errorThreshold == d.errorThreshold
    ensures forall n :: n in d.lastSeen ==>
              r.0.lastSeen[n] == (if Overdue(d.lastSeen[n], now, d.heartbeatTimeoutMs) then now else d.lastSeen[n])
    ensures r.1 == SweepEvents(d.lastSeen, d.order, now, d.heartbeatTimeoutMs)
  {
    var timeout := d.heartbeatTimeoutMs;
    var lastSeen := map n | n in d.lastSeen :: if Overdue(d.lastSeen[n], now, timeout) then now else d.lastSeen[n];
    (d.(lastSeen := lastSeen), SweepEvents(d.lastSeen, d.order, now, timeout))
  }

  /** A node is reported by the sweep exactly when its gap exceeds the
      timeout, and as critical exactly when the gap exceeds five times it. */
  lemma SweepReportsOverdue(d: Detector, now: real, node: string)
    requires Valid(d) && node in d.lastSeen
    ensures var events := Sweep(d, now).1;
            && ((exists e :: e in events && e.nodeId == node) <==> Overdue(d.lastSeen[node], now, d.heartbeatTimeoutMs))
            && (forall e :: e in events && e.nodeId == node ==>
                  (e.severity == "critical" <==> GapMs(d.lastSeen[node], now) > 5.0 * d.heartbeatTimeoutMs as real))
  {
    var i :| 0 <= i < |d.order| && d.order[i] == node;
    var events := Sweep(d, now).1;
    SweepEventsSound(d.lastSeen, d.order, now, d.heartbeatTimeoutMs);
    SweepEventsComplete(d.lastSeen, d.order, now, d.heartbeatTimeoutMs);
    if Overdue(d.lastSeen[node], now, d.heartbeatTimeoutMs) {
      assert GapEvent(node, d.lastSeen[node], now, d.heartbeatTimeoutMs) in events;
    }
  }

  /** A sweep reports each overdue node exactly once, in the order the
      nodes were first heard from. */
  lemma SweepReportsOnceInOrder(d: Detector, now: real, i: nat, j: nat)
    requires Valid(d) && i < j < |d.order|
    requires Overdue(d.lastSeen[d.order[i]], now, d.heartbeatTimeoutMs)
    requires Overdue(d.lastSeen[d.order[j]], now, d.heartbeatTimeoutMs)
    ensures var events := Sweep(d, now).1;
            && Distinct(events)
            && |events| == OverdueCount(d.lastSeen, d.order, now, d.heartbeatTimeoutMs)
            && exists p, q :: 0 <= p < q < |events|
                 && events[p].nodeId == d.order[i] && events[q].nodeId == d.order[j]
  {
    var t := d.heartbeatTimeoutMs;
    SweepEventsDistinct(d.lastSeen, d.order, now, t);
    SweepKeepsOrder(d.lastSeen, d.order, now, t, i, j);
    var p := OverdueCount(d.lastSeen, d.order[..i], now, t);
    var q := OverdueCount(d.lastSeen, d.order[..j], now, t);
    assert Sweep(d, now).1[p].nodeId == d.order[i];
  }

  /** With a non-negative timeout, a second sweep at the same time reports
      nothing. */
  lemma SecondSweepIsQuiet(d: Detector, now: real)
    requires Valid(d) && d.heartbeatTimeoutMs >= 0
    ensures Sweep(Sweep(d, now).0, now).1 == []
  {
    var d1 := Sweep(d, now).0;
    forall n | n in d1.lastSeen
      ensures !Overdue(d1.lastSeen[n], now, d1.heartbeatTimeoutMs)
    {
    }
  }

  // ---------------------------------------------------------------------------
  // Processing one message
  // ---------------------------------------------------------------------------

  function AsDetected(events: seq<FaultEvent>): (r: seq<Emitted>)
    ensures |r| == |events|
    ensures forall i :: 0 <= i < |r| ==> r[i] == Detected(events[i])
  {
    seq(|events|, i requires 0 <= i < |events| => Detected(events[i]))
  }

  /** The node a message speaks for: its `node_id` when that is non-empty,
      otherwise its `node` field. */
  function NodeOf(msg: TelemetryMsg): (r: Option<string>)
    ensures Truthy(msg.nodeId) ==> r == msg.nodeId
    ensures !Truthy(msg.nodeId) ==> r == msg.node
  {
    if Truthy(msg.nodeId) then msg.nodeId else msg.node
  }

  /** A message that speaks for a node: typed `heartbeat` (in any case) or
      carrying a `node_id` field. */
  predicate IsNodeMessage(msg: TelemetryMsg)
  {
    Lower(msg.msgType.GetOr("")) == "heartbeat" || msg.nodeId.Some?
  }

  /** Processes one message arriving at time `arrival` (the timestamp when
      the message has none) and sweeps at time `now`. A node message naming
      no node is dropped without a sweep; otherwise the emissions are the
      classification's event (or the forwarded `fault_event`), then the
      sweep's events. */
  function Process(d: Detector, msg: TelemetryMsg, arrival: real, now: real): (r: (Detector, seq<Emitted>))
    requires Valid(d)
    ensures Valid(r.0)
    ensures IsNodeMessage(msg) && !Truthy(NodeOf(msg)) ==> r == (d, [])
    ensures IsNodeMessage(msg) && Truthy(NodeOf(msg)) ==>
              var node := NodeOf(msg).value;
              var ts := msg.timestamp.GetOr(arrival);
              var metrics := msg.metrics.GetOr(map[]);
              var d1 := Remember(d, node, ts, metrics);
              var sweep := Sweep(d1, now);
              var found := Classify(node, ts, metrics, msg.statusCode, d.errorThreshold);
              && r.0 == sweep.0
              && r.1 == (if found.Some? then [Detected(found.value)] else []) + AsDetected(sweep.1)
    ensures !IsNodeMessage(msg) ==>
              var sweep := Sweep(d, now);
              && r.0 == sweep.0
              && r.1 == (if Lower(msg.msgType.GetOr("")) == "fault_event" then [Forwarded(msg)] else [])
                        + AsDetected(sweep.1)
  {
    if IsNodeMessage(msg) then
      var node := NodeOf(msg);
      if !Truthy(node) then (d, [])
      else
        var ts := msg.timestamp.GetOr(arrival);
        var metrics := msg.metrics.GetOr(map[]);
        var d1 := Remember(d, node.value, ts, metrics);
        var found := Classify(node.value, ts, metrics, msg.statusCode, d.errorThreshold);
        var sweep := Sweep(d1, now);
        (sweep.0, (if found.Some? then [Detected(found.value)] else []) + AsDetected(sweep.1))
    else
      var sweep := Sweep(d, now);
      (sweep.0, (if Lower(msg.msgType.GetOr("")) == "fault_event" then [Forwarded(msg)] else [])
                + AsDetected(sweep.1))
  }

  /** The error count of a node message (0 when absent). */
  function ErrorCountOf(msg: TelemetryMsg): real
  {
    Lookup(msg.metrics.GetOr(map[]), "error_count", 0.0)
  }

  /** Every emission after the first `k` is a missing-heartbeat report from
      the sweep. */
  predicate SweepTail(emitted: seq<Emitted>, k: nat)
  {
    forall i :: k <= i < |emitted| ==> emitted[i].Detected? && emitted[i].event.faultType == MissingHeartbeat
  }

  /** The sweep's part of the emissions, placed after `prefix`. */
  lemma SweepAfter(prefix: seq<Emitted>, d: Detector, now: real)
    requires Valid(d)
    ensures SweepTail(prefix + AsDetected(Sweep(d, now).1), |prefix|)
  {
    var events := Sweep(d, now).1;
    SweepEventsSound(d.lastSeen, d.order, now, d.heartbeatTimeoutMs);
    var all := prefix + AsDetected(events);
    forall i | |prefix| <= i < |all|
      ensures all[i].Detected? && all[i].event.faultType == MissingHeartbeat
    {
      assert all[i] == Detected(events[i - |prefix|]);
      assert events[i - |prefix|] in events;
    }
  }

  /** A node message whose error count reaches the threshold yields exactly
      one classification event, `error_count_exceeded` of severity `major`,
      whatever its status code; everything after it comes from the sweep. */
  lemma ThresholdReported(d: Detector, msg: TelemetryMsg, arrival: real, now: real)
    requires Valid(d) && IsNodeMessage(msg) && Truthy(NodeOf(msg))
    requires ErrorCountOf(msg) >= d.errorThreshold as real
    ensures var r := Process(d, msg, arrival, now);
            && |r.1| >= 1 && r.1[0].Detected?
            && r.1[0].event.faultType == ErrorCountExceeded && r.1[0].event.severity == "major"
            && r.1[0].event.nodeId == NodeOf(msg).value
            && SweepTail(r.1, 1)
  {
    var node, ts, metrics := NodeOf(msg).value, msg.timestamp.GetOr(arrival), msg.metrics.GetOr(map[]);
    var found := Classify(node, ts, metrics, msg.statusCode, d.errorThreshold);
    SweepAfter([Detected(found.value)], Remember(d, node, ts, metrics), now);
  }

  /** Below the threshold, a nonzero status code (the top-level one, else
      the one among the metrics) yields a `status_nonzero` event of
      severity `minor`. */
  lemma StatusCodeReported(d: Detector, msg: TelemetryMsg, arrival: real, now: real)
    requires Valid(d) && IsNodeMessage(msg) && Truthy(NodeOf(msg))
    requires ErrorCountOf(msg) < d.errorThreshold as real
    requires StatusCodeOf(msg.statusCode, msg.metrics.GetOr(map[])) != 0.0
    ensures var r := Process(d, msg, arrival, now);
            && |r.1| >= 1 && r.1[0].Detected?
            && r.1[0].event.faultType == StatusNonzero && r.1[0].event.severity == "minor"
            && SweepTail(r.1, 1)
  {
    var node, ts, metrics := NodeOf(msg).value, msg.timestamp.GetOr(arrival), msg.metrics.GetOr(map[]);
    var found := Classify(node, ts, metrics, msg.statusCode, d.errorThreshold);
    SweepAfter([Detected(found.value)], Remember(d, node, ts, metrics), now);
  }

  /** A healthy node message yields no classification event, yet the node is
      remembered with the metrics it sent. */
  lemma HealthyNodeRemembered(d: Detector, msg: TelemetryMsg, arrival: real, now: real)
    requires Valid(d) && IsNodeMessage(msg) && Truthy(NodeOf(msg))
    requires ErrorCountOf(msg) < d.errorThreshold as real
    requires StatusCodeOf(msg.statusCode, msg.metrics.GetOr(map[])) == 0.0
    ensures var r := Process(d, msg, arrival, now);
            && SweepTail(r.1, 0)
            && NodeOf(msg).value in r.0.lastSeen
            && r.0.nodeMetrics[NodeOf(msg).value] == msg.metrics.GetOr(map[])
  {
    var node, ts, metrics := NodeOf(msg).value, msg.timestamp.GetOr(arrival), msg.metrics.GetOr(map[]);
    SweepAfter([], Remember(d, node, ts, metrics), now);
  }

  /** A message that speaks for no node is passed on unchanged exactly when
      its type is `fault_event`, compared without regard to case. */
  lemma ForwardedOnlyFaultEvents(d: Detector, msg: TelemetryMsg, arrival: real, now: real)
    requires Valid(d) && !IsNodeMessage(msg)
    ensures var r := Process(d, msg, arrival, now);
            && (Forwarded(msg) in r.1 <==> Lower(msg.msgType.GetOr("")) == "fault_event")
            && (Lower(msg.msgType.GetOr("")) == "fault_event" ==> r.1[0] == Forwarded(msg))
            && SweepTail(r.1, if Lower(msg.msgType.GetOr("")) == "fault_event" then 1 else 0)
  {
    var fwd: seq<Emitted> := if Lower(msg.msgType.GetOr("")) == "fault_event" then [Forwarded(msg)] else [];
    SweepAfter(fwd, d, now);
  }
}
