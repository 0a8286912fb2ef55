/** A tile: one reconfigurable region of the simulated board, with a status,
    a small set of metrics and an optional forced (injected) fault.
    Wall-clock readings, random draws and the thermal-drift result are
    parameters of the operations that use them. */
module Tiles {
  import opened Basics

  datatype Status = Ok | Degraded | Failed | Isolated | Spare

  /** Fault types the tile reacts to specifically; any other name takes the
      generic branch of `ApplyFault`. */
  const MissingHeartbeat: string := "missing_heartbeat"
  const StuckOutput: string := "stuck_output"
  const Overheat: string := "overheat"
  const CrcMismatch: string := "crc_mismatch"
  const TelemetryNoise: string := "telemetry_noise"

  predicate KnownFault(faultType: string)
  {
    faultType in {MissingHeartbeat, StuckOutput, Overheat, CrcMismatch, TelemetryNoise}
  }

  /** A 16-bit random draw (`random.getrandbits(16)`). */
  type CrcBits = n: nat | n < 0x1_0000

  /** A draw of `random.uniform(-5.0, 5.0)`. */
  type Noise = x: real | -5.0 <= x <= 5.0

  /** The random values a fault injection may consume. */
  datatype Draw = Draw(crc: CrcBits, noise: Noise)

  /** `last_output_crc` is held as the number whose `hex()` the source stores
      (the initial `"0x0"` is 0). */
  datatype Metrics = Metrics(tempC: real, voltageV: real, load: real, errorCount: real, lastOutputCrc: nat)

  datatype ForcedFault = ForcedFault(faultType: string, params: map<string, real>)

  datatype Tile = Tile(
    id: string,
    logic: string,
    status: Status,
    metrics: Metrics,
    lastHeartbeat: real,
    heartbeatPeriod: real,
    forcedFault: Option<ForcedFault>,
    faultUntil: Option<real>,
    prLoaded: Option<string>,
    isSpare: bool)

  const DefaultBaseTemp: real := 40.0

  /** A freshly constructed tile, created at time `now`. */
  function NewTile(id: string, logic: string, baseTemp: real, now: real): (t: Tile)
    ensures t.id == id && t.logic == logic
    ensures t.status == Ok && !t.isSpare
    ensures t.forcedFault.None? && t.faultUntil.None? && t.prLoaded.None?
    ensures t.metrics.errorCount == 0.0 && t.metrics.load == 0.0
    ensures t.metrics.tempC == baseTemp && t.metrics.voltageV == 1.0 && t.metrics.lastOutputCrc == 0
    ensures t.heartbeatPeriod == 0.005
    ensures t.lastHeartbeat == now
  {
    Tile(id, logic, Ok, Metrics(baseTemp, 1.0, 0.0, 0.0, 0), now, 0.005, None, None, None, false)
  }

  /** A tile built with the constructor's defaults ("generic", 40 degrees). */
  function DefaultTile(id: string, now: real): Tile
  {
    NewTile(id, "generic", DefaultBaseTemp, now)
  }

  /** The error-count increase an injected fault causes (before random draws). */
  function ErrorIncrease(faultType: string, params: map<string, real>): real
  {
    if faultType == MissingHeartbeat then Lookup(params, "increase", 3.0)
    else if faultType == StuckOutput then Lookup(params, "increase", 5.0)
    else if faultType == Overheat then 0.0
    else if faultType == CrcMismatch then Lookup(params, "increase", 1.0)
    else if faultType == TelemetryNoise then 0.5
    else 1.0
  }

  /** Injects a fault at time `now`: records it with its expiry, then moves the
      tile to `Failed` (missing heartbeat) or `Degraded` (anything else) and
      adjusts the metrics the fault type touches. */
  function ApplyFault(t: Tile, faultType: string, duration: Option<real>, params: map<string, real>,
                      now: real, draw: Draw): (r: Tile)
    ensures r.forcedFault == Some(ForcedFault(faultType, params))
    ensures duration.None? ==> r.faultUntil.None?
    ensures duration.Some? ==> r.faultUntil == Some(now + duration.value)
    ensures faultType == MissingHeartbeat <==> r.status == Failed
    ensures faultType != MissingHeartbeat <==> r.status == Degraded
    ensures faultType == MissingHeartbeat ==>
              r.metrics == t.metrics.(errorCount := t.metrics.errorCount + Lookup(params, "increase", 3.0))
    ensures faultType == StuckOutput ==>
              r.metrics == t.metrics.(errorCount := t.metrics.errorCount + Lookup(params, "increase", 5.0))
    ensures !KnownFault(faultType) ==> r.metrics == t.metrics.(errorCount := t.metrics.errorCount + 1.0)
    ensures faultType == Overheat ==>
              r.metrics == t.metrics.(tempC := t.metrics.tempC + Lookup(params, "delta", 15.0))
    ensures faultType == CrcMismatch ==>
              r.metrics == t.metrics.(lastOutputCrc := draw.crc,
                                      errorCount := t.metrics.errorCount + Lookup(params, "increase", 1.0))
    ensures faultType == TelemetryNoise ==>
              r.metrics == t.metrics.(tempC := t.metrics.tempC + draw.noise as real,
                                      errorCount := t.metrics.errorCount + 0.5)
    ensures r.metrics.errorCount == t.metrics.errorCount + ErrorIncrease(faultType, params)
    ensures r.metrics.load == t.metrics.load && r.metrics.voltageV == t.metrics.voltageV
    ensures r == t.(status := r.status, metrics := r.metrics, forcedFault := r.forcedFault, faultUntil := r.faultUntil)
  {
    var ec := t.metrics.errorCount;
    var m := t.metrics;
    var armed := t.(forcedFault := Some(ForcedFault(faultType, params)),
                    faultUntil := if duration.None? then None else Some(now + duration.value));
    if faultType == MissingHeartbeat then
      armed.(status := Failed, metrics := m.(errorCount := ec + Lookup(params, "increase", 3.0)))
    else if faultType == StuckOutput then
      armed.(status := Degraded, metrics := m.(errorCount := ec + Lookup(params, "increase", 5.0)))
    else if faultType == Overheat then
      armed.(status := Degraded, metrics := m.(tempC := m.tempC + Lookup(params, "delta", 15.0)))
    else if faultType == CrcMismatch then
      armed.(status := Degraded,
             metrics := m.(lastOutputCrc := draw.crc, errorCount := ec + Lookup(params, "increase", 1.0)))
    else if faultType == TelemetryNoise then
      armed.(status := Degraded, metrics := m.(tempC := m.tempC + draw.noise, errorCount := ec + 0.5))
    else
      armed.(status := Degraded, metrics := m.(errorCount := ec + 1.0))
  }

  /** Removes the forced fault and its expiry; the tile recovers to `Ok`
      (a `Spare` status is kept) and its error count drops by one, floored at 0. */
  function ClearFault(t: Tile): (r: Tile)
    ensures r.forcedFault.None? && r.faultUntil.None?
    ensures t.status == Spare <==> r.status == Spare
    ensures t.status != Spare ==> r.status == Ok
    ensures r.metrics.errorCount >= 0.0
    ensures r.metrics.errorCount <= t.metrics.errorCount || r.metrics.errorCount == 0.0
    ensures t.metrics.errorCount >= 1.0 ==> r.metrics.errorCount == t.metrics.errorCount - 1.0
    ensures t.metrics.errorCount <= 1.0 ==> r.metrics.errorCount == 0.0
    ensures r == t.(status := r.status, metrics := r.metrics, forcedFault := None, faultUntil := None)
    ensures r.metrics == t.metrics.(errorCount := r.metrics.errorCount)
  {
    var ec := t.metrics.errorCount;
    t.(forcedFault := None, faultUntil := None,
       status := if t.status != Spare then Ok else t.status,
       metrics := t.metrics.(errorCount := MaxReal(0.0, ec - 1.0)))
  }

  /** The fault's expiry has passed at time `now`. An expiry of exactly 0 is
      falsy in the source and never counts as passed. */
  predicate Expired(t: Tile, now: real)
  {
    t.faultUntil.Some? && t.faultUntil.value != 0.0 && now > t.faultUntil.value
  }

  predicate HasHeartbeatFault(t: Tile)
  {
    t.forcedFault.Some? && t.forcedFault.value.faultType == MissingHeartbeat
  }

  /** Whether the tile produces heartbeats at time `now`, and the tile after
      the query (an expired missing-heartbeat fault is cleared by asking). */
  function HasHeartbeat(t: Tile, now: real): (r: (bool, Tile))
    ensures !r.0 <==> HasHeartbeatFault(t) && !Expired(t, now)
    ensures HasHeartbeatFault(t) && Expired(t, now) ==> r.1 == ClearFault(t)
    ensures !(HasHeartbeatFault(t) && Expired(t, now)) ==> r.1 == t
  {
    if HasHeartbeatFault(t) then
      if Expired(t, now) then (true, ClearFault(t)) else (false, t)
    else
      (true, t)
  }

  /** Error-count decay per tick while no fault is forced. */
  const DecayStep: real := 0.05

  /** One periodic tick at time `now`: an expired fault is cleared first, the
      temperature becomes `driftedTemp` (the thermal model's output), and,
      with no forced fault left, a positive error count decays by `DecayStep`
      without going below 0. */
  function Tick(t: Tile, now: real, driftedTemp: real): (r: Tile)
    ensures r.metrics.tempC == driftedTemp
    ensures Expired(t, now) ==> r.forcedFault.None? && r.faultUntil.None?
    ensures !Expired(t, now) ==> r.forcedFault == t.forcedFault && r.faultUntil == t.faultUntil
    ensures r.status == (if Expired(t, now) then ClearFault(t).status else t.status)
    ensures !Expired(t, now) && t.forcedFault.Some? ==> r.metrics.errorCount == t.metrics.errorCount
    ensures !Expired(t, now) && t.forcedFault.None? && t.metrics.errorCount > 0.0 ==>
              r.metrics.errorCount == MaxReal(0.0, t.metrics.errorCount - DecayStep)
    ensures Expired(t, now) && ClearFault(t).metrics.errorCount > 0.0 ==>
              r.metrics.errorCount == MaxReal(0.0, ClearFault(t).metrics.errorCount - DecayStep)
    ensures Expired(t, now) && ClearFault(t).metrics.errorCount <= 0.0 ==>
              r.metrics.errorCount == ClearFault(t).metrics.errorCount
    ensures !Expired(t, now) && t.forcedFault.None? && t.metrics.errorCount <= 0.0 ==>
              r.metrics.errorCount == t.metrics.errorCount
    ensures t.metrics.errorCount >= 0.0 ==> 0.0 <= r.metrics.errorCount <= t.metrics.errorCount
    ensures r == t.(status := r.status, forcedFault := r.forcedFault, faultUntil := r.faultUntil,
                    metrics := t.metrics.(tempC := driftedTemp, errorCount := r.metrics.errorCount))
  {
    var t1 := if Expired(t, now) then ClearFault(t) else t;
    var t2 := t1.(metrics := t1.metrics.(tempC := driftedTemp));
    var ec := t2.metrics.errorCount;
    if t2.forcedFault.None? && ec > 0.0 then
      t2.(metrics := t2.metrics.(errorCount := MaxReal(0.0, ec - DecayStep)))
    else
      t2
  }

  // ---------------------------------------------------------------------------
  // Properties relating several operations
  // ---------------------------------------------------------------------------

  /** A missing-heartbeat fault silences the tile until its expiry; a fault
      without a duration silences it at every later time. */
  lemma MissingHeartbeatSilences(t: Tile, duration: Option<real>, params: map<string, real>,
                                 now: real, draw: Draw, later: real)
    requires duration.None? || later <= now + duration.value
    ensures !HasHeartbeat(ApplyFault(t, MissingHeartbeat, duration, params, now, draw), later).0
  {
  }

  /** After the expiry has passed, asking for the heartbeat clears the fault:
      the tile is back to `Ok` (unless it was a spare) with no fault. */
  lemma MissingHeartbeatExpires(t: Tile, d: real, params: map<string, real>,
                                now: real, draw: Draw, later: real)
    requires later > now + d && now + d != 0.0
    ensures var r := HasHeartbeat(ApplyFault(t, MissingHeartbeat, Some(d), params, now, draw), later);
            r.0 && r.1.status == Ok && r.1.forcedFault.None? && r.1.faultUntil.None?
  {
  }

  /** A new tile beats at every time, and ticking it keeps it fault-free
      with no errors and the same status. */
  lemma NewTileStaysHealthy(id: string, logic: string, baseTemp: real, built: real, now: real, driftedTemp: real)
    ensures var t := NewTile(id, logic, baseTemp, built);
            && HasHeartbeat(t, now) == (true, t)
            && Tick(t, now, driftedTemp) == t.(metrics := t.metrics.(tempC := driftedTemp))
  {
  }

  /** `n` ticks without a forced fault lower a non-negative error count by
      `DecayStep` each, stopping at 0. */
  function TickN(t: Tile, n: nat, now: real, driftedTemp: real): Tile
    decreases n
  {
    if n == 0 then t else TickN(Tick(t, now, driftedTemp), n - 1, now, driftedTemp)
  }

  lemma {:induction false} ErrorCountDecays(t: Tile, n: nat, now: real, driftedTemp: real)
    requires t.forcedFault.None? && t.faultUntil.None? && t.metrics.errorCount >= 0.0
    ensures TickN(t, n, now, driftedTemp).forcedFault.None?
    ensures TickN(t, n, now, driftedTemp).metrics.errorCount
            == MaxReal(0.0, t.metrics.errorCount - n as real * DecayStep)
    decreases n
  {
    if n > 0 {
      var t1 := Tick(t, now, driftedTemp);
      ErrorCountDecays(t1, n - 1, now, driftedTemp);
    }
  }
}
