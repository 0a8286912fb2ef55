# IntelliHeal core, modelled in Dafny

IntelliHeal is a self-healing FPGA demonstrator. A simulated board of
reconfigurable tiles produces heartbeats. Healing software watches that
telemetry, detects faults, picks a recovery plan and sends reconfiguration
commands back to the hardware. This project models the pure logic of both
halves as immutable Dafny data and functions, and proves what each operation
promises.

- **Hardware simulator.**
  - `Tiles`: a tile's fault injection, fault clearing, heartbeat query and
    periodic tick.
  - `Boards`: the board, its tiles and its spare list. This covers
    construction, snapshots, fault injection and clearing, fast swap onto a
    spare, isolation and the spare search.
  - `FaultInjector`: turns a `fault_event` message into an injected fault,
    with a lifetime derived from its severity.
  - `PrController`: the reconfiguration controller. It applies a
    `cmd_reconfigure` to the board and answers with a `cmd_result`.
  - `Scenarios`: the light-load and one-fault demo scenarios.
- **Healing software.**
  - `FaultDetector`: classifies telemetry and remembers when each node was
    last seen. After every message it sweeps for nodes whose heartbeat is
    overdue. The exception is a node message naming no node, which is
    dropped before the sweep.
  - `PathManager`: the recovery recommender. It tries the cache of
    successful plans first, then the fault-type mapping, then a spare from
    the pool, then isolation.
  - `CommandSender`: stamps command ids, registers waiting commands and
    correlates incoming `cmd_ack` / `cmd_result` replies.
- **Shared vocabulary.** `Basics` holds `Option`, `Result`, `dict.get` with a
  default and truthiness. `Text` holds `str(int)`, `int(float)`, ASCII
  `lower()`, and Python's string order with a sort proved to give the unique
  sorted permutation. `Commands` holds the command and reply records.

Clocks, random draws and the thermal model's output are parameters of the
operations that consume them. Examples: `now`, `Draw`, the PR failure flag,
the elapsed seconds and the drifted temperature. The SHA-1 digest behind a
fingerprint is an arbitrary function stored in the recommender. Mutation of
Python objects becomes a function from the old value to the new one. A query
such as `Recommend` returns no new state, so a cache hit can never alter
the stored plan.

Tile ids are ordered as strings. As a result, a default board of 16 tiles
gets `tile_7`, `tile_8` and `tile_9` as its spares, not the three highest
numbers. `Boards.DefaultBoardSpares` proves that this is what the
construction code does.

## Model

| member | source | states |
|---|---|---|
| Tiles.NewTile | IntelliHeal/hw_simulator/sim_core/tile.py:11-27 | a new tile is `ok`, not a spare, has no fault or module, starts at zero error count and load, the base temperature and 1.0 V, has a 0.005 s heartbeat period, and was last heard from at construction time |
| Tiles.ApplyFault | IntelliHeal/hw_simulator/sim_core/tile.py:39-65 | the fault and its expiry (`now + duration`, or none) are recorded. The tile is `failed` iff the fault is a missing heartbeat and `degraded` otherwise. Per known type the new metrics are given in full. A missing heartbeat adds `increase` (default 3) errors and stuck output adds `increase` (default 5). Overheat raises temperature by `delta` (default 15) and leaves the error count alone. A CRC mismatch stores the random CRC and adds `increase` (default 1). Telemetry noise shifts temperature by the random draw and adds 0.5. An unknown type adds 1. No other field changes |
| Tiles.ClearFault | IntelliHeal/hw_simulator/sim_core/tile.py:67-75 | the fault and expiry are gone. The status becomes `ok` unless the tile is a spare. The error count drops by one, floored at 0, and nothing else changes |
| Tiles.HasHeartbeat | IntelliHeal/hw_simulator/sim_core/tile.py:77-86 | the tile is silent iff it holds an unexpired missing-heartbeat fault. Asking after expiry clears the fault; otherwise the tile is untouched |
| Tiles.Tick | IntelliHeal/hw_simulator/sim_core/tile.py:88-108 | an expired fault is cleared first, and the status and fault fields are those of the cleared tile. After expiry, a positive error count, already lowered by the clearing, decays by a further 0.05, floored at 0. Without a forced fault, a positive count decays by 0.05, floored at 0, and a non-positive count is unchanged. The temperature is the thermal model's value, and no other field changes |
| Tiles.MissingHeartbeatSilences | IntelliHeal/hw_simulator/sim_core/tile.py:45-48 | after a missing-heartbeat injection the tile reports no heartbeat at any time up to its expiry, and forever when the fault has no duration |
| Tiles.MissingHeartbeatExpires | IntelliHeal/hw_simulator/sim_core/tile.py:80-84 | once the expiry has passed, the heartbeat query reports a heartbeat and leaves the tile `ok` with no fault |
| Tiles.NewTileStaysHealthy | IntelliHeal/hw_simulator/sim_core/tile.py:77-108 | a new tile always has a heartbeat, and a tick changes only its temperature |
| Tiles.ErrorCountDecays | IntelliHeal/hw_simulator/sim_core/tile.py:104-108 | `n` ticks without a fault lower the error count by `0.05·n`, stopping at 0 |
| Boards.NewBoard | IntelliHeal/hw_simulator/sim_core/board.py:15-43 | the board is well formed. Its tiles are exactly `tile_0`..`tile_{n-1}`, and its spares are the last `count` ids in sorted order (`min(count, n)` of them, none when `count <= 0`) |
| Boards.NewBoardTiles | IntelliHeal/hw_simulator/sim_core/board.py:29-43 | a tile is flagged as spare iff its id is in the spare list. A spare is a default tile that carries module `spare_<id>`, and every other tile is a default tile |
| Boards.TileCount | IntelliHeal/hw_simulator/sim_core/board.py:29-33 | a board built with `n` tiles has exactly `n` distinct tile ids |
| Boards.TileIdsDistinct | IntelliHeal/hw_simulator/sim_core/board.py:30-31 | the generated ids `tile_{i}` never repeat |
| Boards.SparesSortLast | IntelliHeal/hw_simulator/sim_core/board.py:35-39 | every spare sorts after every tile that is not a spare |
| Boards.TeenBoardSpares | IntelliHeal/hw_simulator/sim_core/board.py:35-39 | with 10 to 20 tiles and 3 spares, the spares are `tile_7`, `tile_8`, `tile_9` in that order |
| Boards.DefaultBoardSpares | IntelliHeal/hw_simulator/sim_core/board.py:15-39 | the default board (16 tiles, 3 spares) has spares `["tile_7","tile_8","tile_9"]` |
| Boards.GetSnapshot | IntelliHeal/hw_simulator/sim_core/board.py:45-51 | the snapshot has one heartbeat per tile, keyed by id, each a `heartbeat` message stamped with the snapshot time and carrying that tile's own id, status and metrics |
| Boards.NewBoardSnapshot | IntelliHeal/hw_simulator/sim_core/board.py:29-51 | the first snapshot of a new board of `n` tiles holds `n` heartbeats, all `ok` with no errors, spares included |
| Boards.NewBoardHealthy | IntelliHeal/hw_simulator/sim_core/board.py:29-43 | every tile of a new board, spare or not, starts `ok` with no errors |
| Boards.TileHeartbeat | IntelliHeal/hw_simulator/sim_core/tile.py:29-37 | a tile's heartbeat message carries its id, status and metrics |
| Boards.FindAvailableSpare | IntelliHeal/hw_simulator/sim_core/board.py:91-95 | the answer is the first spare in list order whose status is `ok`. It is none iff no spare is `ok` |
| Boards.InjectFault | IntelliHeal/hw_simulator/sim_core/board.py:57-61 | an unknown or missing id fails with that id. Otherwise only the named tile changes, it becomes the tile's `ApplyFault` result, and the board stays well formed |
| Boards.ClearTileFault | IntelliHeal/hw_simulator/sim_core/board.py:63-67 | an unknown or missing id fails. Otherwise only the named tile changes, to its `ClearFault` result |
| Boards.ModuleFor | IntelliHeal/hw_simulator/sim_core/board.py:83 | the spare receives the target's module when it is non-empty, and `module_<target>` otherwise |
| Boards.PerformFastSwap | IntelliHeal/hw_simulator/sim_core/board.py:69-89 | the spare is checked before the target, and each rejection leaves the board unchanged. A swap happens iff the spare is listed and the target exists. The spare then takes the target's module and metrics and becomes `ok`, while the target is isolated with zero load. Every other tile and the spare list are unchanged |
| Boards.IsolateTile | IntelliHeal/hw_simulator/sim_core/pr_controller.py:50-56 | an existing tile becomes `isolated` and nothing else changes. An unknown id changes nothing |
| FaultInjector.SeverityDuration | IntelliHeal/hw_simulator/sim_core/fault_injector.py:11-17 | critical means no expiry. Major or missing means 60 s. Any other severity means 10 s |
| FaultInjector.InjectFromMessage | IntelliHeal/hw_simulator/sim_core/fault_injector.py:8-23 | an error reply comes back iff the node is unknown or missing, and the board is then unchanged. Otherwise only that tile changes, receiving the fault type (default `manual_inject`), the severity's lifetime and the evidence as parameters |
| FaultInjector.MissingFaultTypeIsGeneric | IntelliHeal/hw_simulator/sim_core/fault_injector.py:10 | a message without a fault type degrades the tile and adds one error |
| FaultInjector.MissingSeverityIsMajor | IntelliHeal/hw_simulator/sim_core/fault_injector.py:11-15 | a message without a severity gives the fault a 60-second lifetime |
| FaultInjector.CriticalNeverExpires | IntelliHeal/hw_simulator/sim_core/fault_injector.py:12-13 | a critical fault has no expiry |
| PrController.ApplyAction | IntelliHeal/hw_simulator/sim_core/pr_controller.py:23-60 | `fast_swap` with a non-empty spare performs the swap. `partial_reconfig` clears the target's fault and ignores an unknown target. `isolate` isolates the target. Every other action, and `fast_swap` without a spare, leaves the board as it was. Well-formedness is kept |
| PrController.HandleReconfigure | IntelliHeal/hw_simulator/sim_core/pr_controller.py:18-67 | the reply is a `cmd_result` for the same command id. The status is `failed` iff the failure draw fails, and `sandbox_passed` iff it does not. The duration is the elapsed time in whole milliseconds, truncated |
| PrController.ResultIndependentOfBoard | IntelliHeal/hw_simulator/sim_core/pr_controller.py:62-67 | the result depends only on the command and the draws, never on the board or on what the action achieved |
| PrController.RejectedSwapReportsSuccess | IntelliHeal/hw_simulator/sim_core/pr_controller.py:30-34 | a swap onto a tile that is not a spare changes nothing yet still reports success |
| Scenarios.LightLoadScenario | IntelliHeal/hw_simulator/sim_core/scenarios.py:8-11 | every non-spare tile gets load 0.05 and every spare gets 0. Nothing else changes |
| Scenarios.LightLoadIdempotent | IntelliHeal/hw_simulator/sim_core/scenarios.py:8-11 | applying the scenario twice equals applying it once |
| Scenarios.LightLoadKeepsSpareChoice | IntelliHeal/hw_simulator/sim_core/scenarios.py:8-11 | the scenario does not change which spare is available |
| Scenarios.FirstOkSpareDependsOnStatus | IntelliHeal/hw_simulator/sim_core/board.py:91-95 | the spare search looks only at the spares' statuses |
| Scenarios.OneFaultScenario | IntelliHeal/hw_simulator/sim_core/scenarios.py:17-18 | the given tile (default `tile_3`) gets a 30-second missing-heartbeat fault, so that tile becomes exactly its `ApplyFault` result: it fails with 3 more errors and nothing else about it changes. An unknown tile fails, no other tile changes, and a well-formed board stays well formed |
| Scenarios.OneFaultOnNewBoard | IntelliHeal/hw_simulator/sim_core/scenarios.py:17-18 | on a new board of at least 4 tiles the default scenario succeeds, and `tile_3` is silent until the fault expires |
| FaultDetector.NewDetector | IntelliHeal/self_healing_software/backend/fault_detector.py:12-26 | a new detector knows no node and keeps the given heartbeat timeout and error threshold |
| FaultDetector.StatusCodeOf | IntelliHeal/self_healing_software/backend/fault_detector.py:65 | a nonzero top-level status code wins. Otherwise the one among the metrics is used, and 0 when absent |
| FaultDetector.Classify | IntelliHeal/self_healing_software/backend/fault_detector.py:64-76 | there is an event iff the error count reaches the threshold or the status code is nonzero. The threshold case gives `error_count_exceeded` with severity major, and takes precedence. A status code alone gives `status_nonzero` with severity minor. The id is `fault_<node>_<int(ts)>` |
| FaultDetector.Remember | IntelliHeal/self_healing_software/backend/fault_detector.py:60-62 | the node's last-seen time and metrics are replaced. A new node joins the end of the iteration order and a known node keeps its place |
| FaultDetector.GapEvent | IntelliHeal/self_healing_software/backend/fault_detector.py:89-99 | a missing-heartbeat report carrying the gap in milliseconds. It is critical iff the gap exceeds five times the timeout, and major otherwise |
| FaultDetector.SweepEvents | IntelliHeal/self_healing_software/backend/fault_detector.py:88-100 | there is one report per overdue node. With nothing overdue there are no reports |
| FaultDetector.SweepEventsComplete | IntelliHeal/self_healing_software/backend/fault_detector.py:88-100 | every overdue node's gap report is among the reports |
| FaultDetector.SweepEventsSound | IntelliHeal/self_healing_software/backend/fault_detector.py:88-100 | every report names a listed node that is overdue and is exactly that node's gap report |
| FaultDetector.SweepEventsInOrder | IntelliHeal/self_healing_software/backend/fault_detector.py:88-100 | the report of the `i`-th node, when it is overdue, sits at the position given by the number of overdue nodes before it |
| FaultDetector.SweepEventsDistinct | IntelliHeal/self_healing_software/backend/fault_detector.py:88-100 | when no node is listed twice, no report is repeated |
| FaultDetector.SweepKeepsOrder | IntelliHeal/self_healing_software/backend/fault_detector.py:88-100 | of two overdue nodes, the one listed first is reported first |
| FaultDetector.SweepReportsOnceInOrder | IntelliHeal/self_healing_software/backend/fault_detector.py:85-105 | a sweep reports each overdue node exactly once, and in the order the nodes were first seen |
| FaultDetector.Sweep | IntelliHeal/self_healing_software/backend/fault_detector.py:85-105 | overdue nodes have their last-seen time moved to the sweep time and all others keep theirs. The events are judged on the times before the sweep, in first-seen order |
| FaultDetector.SweepReportsOverdue | IntelliHeal/self_healing_software/backend/fault_detector.py:88-100 | a known node is reported iff its gap exceeds the timeout, and as critical iff the gap exceeds five times it |
| FaultDetector.SecondSweepIsQuiet | IntelliHeal/self_healing_software/backend/fault_detector.py:101-103 | with a non-negative timeout, an immediate second sweep reports nothing |
| FaultDetector.NodeOf | IntelliHeal/self_healing_software/backend/fault_detector.py:57 | the node is `node_id` when it is non-empty, and the `node` field otherwise |
| FaultDetector.Process | IntelliHeal/self_healing_software/backend/fault_detector.py:48-83 | a node message naming no node is dropped without a sweep. A node message is remembered and classified, and its event precedes the sweep's. Any other message is forwarded iff its type is `fault_event` (case-insensitive) before the sweep's events. The detector stays well formed |
| FaultDetector.ThresholdReported | IntelliHeal/self_healing_software/backend/fault_detector.py:64-76 | a node message at or over the threshold is reported first as `error_count_exceeded`/major for that node. Everything after it is a sweep report |
| FaultDetector.StatusCodeReported | IntelliHeal/self_healing_software/backend/fault_detector.py:64-76 | below the threshold, a nonzero status code is reported first as `status_nonzero`/minor |
| FaultDetector.HealthyNodeRemembered | IntelliHeal/self_healing_software/backend/fault_detector.py:56-66 | a healthy node message yields only sweep reports, yet the node is remembered with its metrics |
| FaultDetector.ForwardedOnlyFaultEvents | IntelliHeal/self_healing_software/backend/fault_detector.py:77-80 | a non-node message is passed through iff its type is `fault_event`, and it then comes first |
| PathManager.NewRecommender | IntelliHeal/self_healing_software/backend/ai_path_manager.py:20-30 | a new recommender has an empty cache and the pool `spare_1`..`spare_3`, and keeps the given mapping and digest |
| PathManager.Fingerprint | IntelliHeal/self_healing_software/backend/ai_path_manager.py:32-36 | a context's cache key is the recommender's digest of its rendered key. The digest stands for SHA-1 over `repr(key)` and is left abstract |
| PathManager.KeyOf | IntelliHeal/self_healing_software/backend/ai_path_manager.py:34 | the fingerprint key is node, fault type, load in tenths and temperature in degrees, each truncated and rendered as decimal |
| PathManager.DifferentLoadBucketsDifferentKeys | IntelliHeal/self_healing_software/backend/ai_path_manager.py:32-36 | contexts whose loads fall in different tenths get different keys |
| PathManager.DifferentTempBucketsDifferentKeys | IntelliHeal/self_healing_software/backend/ai_path_manager.py:32-36 | contexts whose temperatures fall in different whole degrees get different keys |
| PathManager.SameBucketsSameFingerprint | IntelliHeal/self_healing_software/backend/ai_path_manager.py:32-36 | contexts that agree on node, type and both buckets share a fingerprint |
| PathManager.RegisterSuccess | IntelliHeal/self_healing_software/backend/ai_path_manager.py:38-43 | the plan is stored under the context's fingerprint and every other cache entry is unchanged |
| PathManager.FirstOtherSpare | IntelliHeal/self_healing_software/backend/ai_path_manager.py:70-72 | the first pool spare that is not the node itself. It is none iff every pool entry equals the node |
| PathManager.Recommend | IntelliHeal/self_healing_software/backend/ai_path_manager.py:45-75 | a cached plan comes back with confidence 0.99. Otherwise the source is `model` iff the mapping names a non-empty spare for the fault type (swap, 0.85). After that comes a swap onto the first other pool spare (heuristic, 0.5), then isolation (fallback, 0.1) iff no other spare exists |
| PathManager.RegisterThenRecommend | IntelliHeal/self_healing_software/backend/ai_path_manager.py:38-55 | a registered plan is what the next recommendation for the same context returns, from the cache |
| PathManager.SharedCacheEntry | IntelliHeal/self_healing_software/backend/ai_path_manager.py:32-55 | a plan registered for one context is returned for every context in the same buckets |
| PathManager.CacheBeforeModel | IntelliHeal/self_healing_software/backend/ai_path_manager.py:50-65 | the cache outranks the model mapping |
| PathManager.DefaultPoolNeverIsolates | IntelliHeal/self_healing_software/backend/ai_path_manager.py:30 | with the default pool the fallback is unreachable, and an uncached context always gets a fast swap |
| CommandSender.FeedIncoming | IntelliHeal/self_healing_software/firmware_interface/command_sender.py:38-49 | a dictionary reply of type `cmd_result` or `cmd_ack` resolves the waiting command with its id, if that command is still unresolved. Everything else leaves the table unchanged |
| CommandSender.FirstReplyWins | IntelliHeal/self_healing_software/firmware_interface/command_sender.py:47-49 | a resolved command is never overwritten |
| CommandSender.AckThenResult | IntelliHeal/self_healing_software/firmware_interface/command_sender.py:45-49 | an ack followed by a result leaves the ack as the command's answer |
| CommandSender.GeneratedId | IntelliHeal/self_healing_software/firmware_interface/command_sender.py:20 | a generated id has the `cmd_` prefix |
| CommandSender.IdFor | IntelliHeal/self_healing_software/firmware_interface/command_sender.py:20 | the command keeps a non-empty id of its own, or gets one generated from the clock. The id is never empty |
| CommandSender.BeginSend | IntelliHeal/self_healing_software/firmware_interface/command_sender.py:15-31 | the id is written back into the command even when sending fails. A failed send registers nothing. Without an expected result, nothing is registered. Otherwise an unresolved entry is registered under the id |
| CommandSender.FinishWait | IntelliHeal/self_healing_software/firmware_interface/command_sender.py:32-36 | the entry is removed however the wait ends. The answer is the reply if one arrived, and a timeout otherwise |
| CommandSender.SendReplyRoundTrip | IntelliHeal/self_healing_software/firmware_interface/command_sender.py:15-49 | sending, then a matching result, then the end of the wait returns that result and restores the pending table |
| CommandSender.SendTimeout | IntelliHeal/self_healing_software/firmware_interface/command_sender.py:30-36 | with no reply, the wait times out and the pending table is restored |
| Text.NatToStringInjective | IntelliHeal/hw_simulator/sim_core/board.py:31 | different numbers render as different decimal strings |
| Text.Trunc | IntelliHeal/hw_simulator/sim_core/pr_controller.py:63 | `int()` of a float truncates toward zero, within one of the value |
| Text.Lower | IntelliHeal/self_healing_software/backend/fault_detector.py:54 | lower-casing keeps the length and lower-cases each ASCII capital |
| Text.Sort | IntelliHeal/hw_simulator/sim_core/board.py:36 | `sorted()` returns an ascending permutation of its input |
| Text.SortIsTheSortedPermutation | IntelliHeal/hw_simulator/sim_core/board.py:36 | any ascending permutation of the input is the sort's result |
| Text.LastN | IntelliHeal/hw_simulator/sim_core/board.py:39 | `xs[-count:]` is the last `min(count, len)` elements, in order, and the whole list when `count` is 0 (`-0` is `0`) |

## Left out

- I/O and concurrency are not modelled: the asyncio tasks, queues, sleeps, sockets and the fault callback. The detector's emissions are returned as a sequence instead.
- `time.time()` and `random` are parameters. The PR controller's random delays and failure draw become one flag plus the elapsed seconds.
- Tiles.Tick: the thermal drift and its rounding to two decimals are a float computation. The resulting temperature is a parameter.
- Every `real` stands for a Python float (an IEEE double), but the model computes sums, differences and products exactly. A result can therefore differ from the source's wherever a rounded double lands on the other side of a comparison or of an `int()` truncation. The members affected are listed below.
- Tiles.Tick, Tiles.ErrorCountDecays: the decay `max(0, count - 0.05)` is exact, so `n` steps lower the count by exactly `0.05·n`, while doubles accumulate rounding.
- Tiles.ApplyFault: the error-count and temperature increments and the expiry `now + duration` are exact sums. The same goes for the expiries that FaultInjector.InjectFromMessage and Scenarios.OneFaultScenario state.
- PathManager.KeyOf: `int(load*10)` and `int(temp_c)` are taken on exact values, so a load within rounding distance of a tenth boundary may fall in a different bucket than in the source.
- PrController.HandleReconfigure: the duration `int(elapsed*1000)` truncates the exact product, where the source truncates the rounded double product. Near a whole millisecond the two can differ by one.
- CommandSender.GeneratedId, CommandSender.IdFor: the generated id renders `int(time*1000)` of the exact product, with the same one-millisecond caveat.
- FaultDetector.GapEvent, FaultDetector.Sweep, FaultDetector.SweepEvents: the gap `(now - last)*1000` is exact. A gap within rounding distance of the timeout, or of five times the timeout, may be judged overdue or critical differently from the source.
- Scenarios.OneFaultScenario: a missing tile id and the default argument are the same case, so passing `None` explicitly selects `tile_3` here, while the source would look up `None` and fail.
- Boards.GetSnapshot: the snapshot is a map, so the source's key order (the ids sorted as strings, `tile_0, tile_1, tile_10, …, tile_15, tile_2, …`, on every board) is not kept.
- FaultDetector.Process: a telemetry message's metrics are a map from names to numbers. The string-valued `last_output_crc` that every heartbeat carries has no place there, so the detector does not remember it. On the simulator side the tile keeps the CRC as the number whose `hex()` the source stores.
- `Board.tick_all` is not modelled separately. It ticks every tile with its own clock reading and drift, which is `Tiles.Tick` applied tile by tile.
- `stress_scenario` is not modelled. It draws a random load per tile and is otherwise the light-load scenario.
- The board's `region_map` (read from an optional JSON file) is not modelled. Neither is the bitstream-size estimate of the partial-reconfiguration delay. Both only affect timing.
- JSON `null` is not distinguished from an absent key. Where the source treats them differently (a `null` severity gives 10 s; a `null` message type or metrics object raises) the model follows the absent-key behaviour.
- Text.Lower: only ASCII letters are lower-cased, not full Unicode `str.lower`.
- PathManager.Fingerprint: SHA-1 over `repr(key)` is an arbitrary digest function. No lemma assumes it is collision-free.
- The model file the recommender loads is reduced to its `mapping` table. A missing file, unreadable JSON, a model without a mapping and a non-dictionary mapping all become the empty table.
- Tiles.ApplyFault: fault parameters are numbers. A non-numeric `increase` or `delta` raises in the source and is not modelled.
- Boards.GetSnapshot: every clock reading in one snapshot is the same `now`.
- Boards.PerformFastSwap, PrController.ApplyAction and PrController.HandleReconfigure require a well-formed board. Boards.FindAvailableSpare requires it too. That means every tile is keyed by its id and every spare names a tile. `Boards.NewBoard` establishes this and every operation preserves it.
- FaultDetector.Process requires a well-formed detector: the iteration order lists each known node once. `NewDetector` establishes this and `Process` preserves it.
- The browser dashboard client is not part of this model. Neither are `hal_adapter`, `comms`, `main`, `telemetry_collector`, `healing_manager`, `sim_env`, `simulator_cli`, `test_vector`, `train_model` and `utils`. They wire the core to sockets, logging, random test data and the command line.
