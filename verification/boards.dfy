/** The simulated board: tiles keyed by id plus an ordered list of spare ids.
    Construction names the tiles `tile_0` .. `tile_{n-1}` and marks as spares
    the last `count` ids in lexicographic order. */
module Boards {
  import opened Basics
  import opened Text
  import opened Tiles

  datatype Board = Board(tiles: map<string, Tile>, spares: seq<string>)

  /** Every tile is stored under its own id and every spare id names a tile. */
  predicate Valid(b: Board)
  {
    && (forall id :: id in b.tiles ==> b.tiles[id].id == id)
    && (forall i :: 0 <= i < |b.spares| ==> b.spares[i] in b.tiles)
  }

  /** Python's `key in self.tiles` for a key that may be `None`. */
  predicate HasTile(b: Board, id: Option<string>)
  {
    id.Some? && id.value in b.tiles
  }

  /** `b'` differs from `b` at most in the tile named `id`. */
  predicate OnlyTileChanged(b: Board, b': Board, id: string)
  {
    && b'.tiles.Keys == b.tiles.Keys
    && b'.spares == b.spares
    && (forall k :: k in b.tiles && k != id ==> b'.tiles[k] == b.tiles[k])
  }

  datatype BoardError = UnknownTile(id: Option<string>)

  // ---------------------------------------------------------------------------
  // Construction
  // ---------------------------------------------------------------------------

  function TileId(i: nat): string
  {
    "tile_" + NatToString(i)
  }

  lemma TileIdInjective(i: nat, j: nat)
    requires TileId(i) == TileId(j)
    ensures i == j
  {
    assert TileId(i)[5..] == NatToString(i);
    assert TileId(j)[5..] == NatToString(j);
    NatToStringInjective(i, j);
  }

  lemma TileIdsDiffer(i: nat, j: nat)
    requires i != j
    ensures TileId(i) != TileId(j)
  {
    if TileId(i) == TileId(j) {
      TileIdInjective(i, j);
    }
  }

  /** The tile ids in creation order (`range(n)`; empty when `n <= 0`). */
  function TileIds(n: int): (ids: seq<string>)
    ensures |ids| == if n <= 0 then 0 else n
    ensures forall i :: 0 <= i < |ids| ==> ids[i] == TileId(i)
  {
    seq(if n <= 0 then 0 else n, i requires 0 <= i => TileId(i))
  }

  function TileIdSet(n: int): set<string>
  {
    set i | 0 <= i < n :: TileId(i)
  }

  lemma TileIdsCover(n: int)
    ensures forall id :: id in TileIds(n) <==> id in TileIdSet(n)
  {
    var ids := TileIds(n);
    forall id | id in TileIdSet(n)
      ensures id in ids
    {
      var i :| 0 <= i < n && TileId(i) == id;
      assert ids[i] == id;
    }
  }

  /** The spare ids: the last `count` of the sorted tile ids (none when
      `count <= 0`). */
  function SpareIds(n: int, count: int): seq<string>
  {
    if count <= 0 then [] else LastN(Sort(TileIds(n)), count)
  }

  function MarkSpare(t: Tile): Tile
  {
    t.(isSpare := true, prLoaded := Some("spare_" + t.id))
  }

  /** A new board of `tilesCount` tiles of which `spareCount` are spares,
      built at time `now`. */
  function NewBoard(tilesCount: int, spareCount: int, now: real): (b: Board)
    ensures Valid(b)
    ensures b.tiles.Keys == TileIdSet(tilesCount)
    ensures b.spares == SpareIds(tilesCount, spareCount)
    ensures |b.spares| == if spareCount <= 0 || tilesCount <= 0 then 0
                          else if spareCount <= tilesCount then spareCount else tilesCount
  {
    var spares := SpareIds(tilesCount, spareCount);
    SparesAreTiles(tilesCount, spareCount);
    SpareCount(tilesCount, spareCount);
    Board(InitialTiles(tilesCount, spares, now), spares)
  }

  /** The tiles of a new board: default tiles, those named in `spares` marked
      as spares. */
  function InitialTiles(n: int, spares: seq<string>, now: real): (tiles: map<string, Tile>)
    ensures tiles.Keys == TileIdSet(n)
    ensures forall id :: id in tiles ==> tiles[id].id == id
  {
    map id | id in TileIdSet(n) :: if id in spares then MarkSpare(DefaultTile(id, now)) else DefaultTile(id, now)
  }

  /** Exactly the spares are flagged; a spare carries `spare_<id>` as its
      module, and every other tile is a default tile. */
  lemma NewBoardTiles(tilesCount: int, spareCount: int, now: real)
    ensures var b := NewBoard(tilesCount, spareCount, now);
            && (forall id :: id in b.tiles ==> (b.tiles[id].isSpare <==> id in b.spares))
            && (forall id :: id in b.tiles && id in b.spares ==>
                  b.tiles[id] == DefaultTile(id, now).(isSpare := true, prLoaded := Some("spare_" + id)))
            && (forall id :: id in b.tiles && id !in b.spares ==> b.tiles[id] == DefaultTile(id, now))
  {
  }

  lemma SpareCount(n: int, count: int)
    ensures |SpareIds(n, count)| == if count <= 0 || n <= 0 then 0
                                   else if count <= n then count else n
  {
  }

  lemma SparesAreTiles(n: int, count: int)
    ensures forall i :: 0 <= i < |SpareIds(n, count)| ==> SpareIds(n, count)[i] in TileIdSet(n)
  {
    if count > 0 {
      TileIdsCover(n);
      SortKeepsMembers(TileIds(n));
      var spares := SpareIds(n, count);
      forall i | 0 <= i < |spares|
        ensures spares[i] in TileIdSet(n)
      {
        assert spares[i] in spares;
      }
    }
  }

  /** A board of `n` tiles has exactly `n` distinct tile ids. */
  lemma {:induction false} TileCount(n: nat)
    ensures |TileIdSet(n)| == n
    decreases n
  {
    if n > 0 {
      TileCount(n - 1);
      TileIdSetGrows(n);
    }
  }

  lemma TileIdSetGrows(n: nat)
    requires n > 0
    ensures TileIdSet(n) == TileIdSet(n - 1) + {TileId(n - 1)}
    ensures TileId(n - 1) !in TileIdSet(n - 1)
  {
    forall i | 0 <= i < n - 1
      ensures TileId(i) != TileId(n - 1)
    {
      TileIdsDiffer(i, n - 1);
    }
  }

  /** The tile ids have no repeats. */
  lemma TileIdsDistinct(n: int)
    ensures Distinct(TileIds(n))
  {
    var ids := TileIds(n);
    forall i, j | 0 <= i < j < |ids|
      ensures ids[i] != ids[j]
    {
      if ids[i] == ids[j] {
        TileIdInjective(i, j);
      }
    }
  }

  /** Every spare sorts after every tile that is not a spare. */
  lemma SparesSortLast(n: int, count: int, now: real)
    ensures var b := NewBoard(n, count, now);
            forall s, t :: s in b.spares && t in b.tiles && t !in b.spares ==> Less(t, s)
  {
    if count > 0 {
      var sorted := Sort(TileIds(n));
      TileIdsCover(n);
      SortKeepsMembers(TileIds(n));
      LastNAboveRest(sorted, count);
    }
  }

  /** A one-digit id, rendered. */
  lemma OneDigitId(n: nat)
    requires n < 10
    ensures NatToString(n) == [DigitChar(n)]
    ensures TileId(n) == "tile_" + [DigitChar(n)]
  {
  }

  lemma TwoDigitId(n: nat)
    requires 10 <= n < 20
    ensures NatToString(n) == [DigitChar(1), DigitChar(n - 10)]
  {
    assert NatToString(n) == NatToString(1) + [DigitChar(n - 10)];
  }

  /** Below 20, `tile_7` .. `tile_9` sort above every id with a smaller
      number and above every two-digit id (whose first digit is `1`). */
  lemma HighIdOrder(k: nat, m: nat)
    requires k < 20 && 7 <= m <= 9
    requires k < m || k >= 10
    ensures Less(TileId(k), TileId(m))
  {
    var sk, sm := NatToString(k), NatToString(m);
    OneDigitId(m);
    if k < 10 { OneDigitId(k); } else { TwoDigitId(k); }
    assert sk[0] != sm[0] && sk[0] < sm[0];
    assert Less(sk, sm);
    PrefixKeepsOrder("tile_", sk, sm);
  }

  /** Every element of `rc` is an id below `n` other than `tile_{m+1}` ..
      `tile_9`. */
  ghost predicate IdsBelow(rc: seq<string>, n: int, m: nat)
  {
    forall y :: y in rc ==> exists k: nat :: k < n && y == TileId(k) && !(m < k <= 9)
  }

  lemma HighIdIsLast(rc: seq<string>, n: int, m: nat)
    requires n <= 20 && 7 <= m <= 9
    requires SortedStrings(rc) && TileId(m) in rc && IdsBelow(rc, n, m)
    ensures |rc| > 0 && rc[|rc| - 1] == TileId(m)
  {
    forall y | y in rc && y != TileId(m)
      ensures Less(y, TileId(m))
    {
      var k: nat :| k < n && y == TileId(k) && !(m < k <= 9);
      HighIdOrder(k, m);
    }
    LastOfSorted(rc, TileId(m));
  }

  /** Dropping the last element of a sorted list without repeats keeps it
      sorted and without repeats, and keeps every other element. */
  lemma DropLast(r: seq<string>)
    requires SortedStrings(r) && Distinct(r) && |r| > 0
    ensures SortedStrings(r[..|r| - 1]) && Distinct(r[..|r| - 1])
    ensures forall x :: x in r && x != r[|r| - 1] ==> x in r[..|r| - 1]
    ensures forall x :: x in r[..|r| - 1] ==> x in r && x != r[|r| - 1]
  {
    var p := r[..|r| - 1];
    forall i, j | 0 <= i < j < |p|
      ensures LessEq(p[i], p[j]) && p[i] != p[j]
    {
      assert p[i] == r[i] && p[j] == r[j];
    }
    forall x | x in r && x != r[|r| - 1]
      ensures x in p
    {
      var i :| 0 <= i < |r| && r[i] == x;
      assert p[i] == x;
    }
    forall x | x in p
      ensures x in r && x != r[|r| - 1]
    {
      var i :| 0 <= i < |p| && p[i] == x;
      assert r[i] == x;
    }
  }

  /** Once `tile_m` is known to be last, the rest holds no id from `tile_m`
      to `tile_9`. */
  lemma NextIdsBelow(r: seq<string>, n: int, m: nat)
    requires SortedStrings(r) && Distinct(r) && |r| > 0
    requires m >= 1 && IdsBelow(r, n, m) && r[|r| - 1] == TileId(m)
    ensures IdsBelow(r[..|r| - 1], n, m - 1)
  {
    DropLast(r);
    var p := r[..|r| - 1];
    forall y | y in p
      ensures exists k: nat :: k < n && y == TileId(k) && !(m - 1 < k <= 9)
    {
      assert y in r;
      var k: nat :| k < n && y == TileId(k) && !(m < k <= 9);
      assert k != m;
    }
  }

  /** A sorted list without repeats that holds `tile_7` .. `tile_m` and
      otherwise only ids below 20 ends with `tile_7` .. `tile_m`, in order. */
  lemma {:induction false} HighIdsLast(r: seq<string>, n: int, m: nat)
    requires n <= 20 && 7 <= m <= 9
    requires SortedStrings(r) && Distinct(r) && IdsBelow(r, n, m)
    requires forall j :: 7 <= j <= m ==> TileId(j) in r
    ensures |r| >= m - 6
    ensures forall i :: |r| - (m - 6) <= i < |r| ==> r[i] == TileId(m + 1 + i - |r|)
    decreases m
  {
    HighIdIsLast(r, n, m);
    if m > 7 {
      var p := r[..|r| - 1];
      DropLast(r);
      NextIdsBelow(r, n, m);
      forall j | 7 <= j <= m - 1
        ensures TileId(j) in p
      {
        TileIdsDiffer(j, m);
      }
      HighIdsLast(p, n, m - 1);
      forall i | |r| - (m - 6) <= i < |r| - 1
        ensures r[i] == TileId(m + 1 + i - |r|)
      {
        assert r[i] == p[i];
      }
    }
  }

  /** With between 10 and 20 tiles and 3 spares, the spares are `tile_7`,
      `tile_8` and `tile_9`, in that order: every two-digit id starts with
      `1` and so sorts below them. */
  lemma TeenBoardSpares(n: int)
    requires 10 <= n <= 20
    ensures SpareIds(n, 3) == [TileId(7), TileId(8), TileId(9)]
  {
    var ids := TileIds(n);
    var r := Sort(ids);
    TileIdsDistinct(n);
    DistinctPermutation(ids, r);
    SortKeepsMembers(ids);
    forall j | 7 <= j <= 9
      ensures TileId(j) in r
    {
      assert ids[j] in ids;
    }
    forall y | y in r
      ensures exists k: nat :: k < n && y == TileId(k) && !(9 < k <= 9)
    {
      var k :| 0 <= k < |ids| && ids[k] == y;
    }
    HighIdsLast(r, n, 9);
    assert r[n - 3] == TileId(7) && r[n - 2] == TileId(8) && r[n - 1] == TileId(9);
    LastThree(r, TileId(7), TileId(8), TileId(9));
  }

  lemma LastThree(r: seq<string>, a: string, b: string, c: string)
    requires |r| >= 3 && r[|r| - 3] == a && r[|r| - 2] == b && r[|r| - 1] == c
    ensures LastN(r, 3) == [a, b, c]
  {
  }

  lemma TileThreeRendered()
    ensures TileId(3) == "tile_3"
  {
    OneDigitId(3);
    assert DigitChar(3) == '3';
    assert "tile_" + "3" == "tile_3";
  }

  lemma HighIdsRendered()
    ensures [TileId(7), TileId(8), TileId(9)] == ["tile_7", "tile_8", "tile_9"]
  {
    OneDigitId(7);
    OneDigitId(8);
    OneDigitId(9);
    assert DigitChar(7) == '7' && DigitChar(8) == '8' && DigitChar(9) == '9';
    assert "tile_" + "7" == "tile_7" && "tile_" + "8" == "tile_8" && "tile_" + "9" == "tile_9";
  }

  lemma DefaultBoardSpares(tilesCount: int, spareCount: int, now: real)
    requires tilesCount == 16 && spareCount == 3
    ensures NewBoard(tilesCount, spareCount, now).spares == ["tile_7", "tile_8", "tile_9"]
  {
    TeenBoardSpares(tilesCount);
    HighIdsRendered();
  }

  // ---------------------------------------------------------------------------
  // Queries
  // ---------------------------------------------------------------------------

  datatype TileSnapshot = TileSnapshot(msgType: string, nodeId: string, timestamp: real,
                                       metrics: Metrics, status: Status)

  datatype BoardSnapshot = BoardSnapshot(msgType: string, timestamp: real,
                                         nodes: map<string, TileSnapshot>)

  /** A tile's heartbeat message taken at time `now`. */
  function TileHeartbeat(t: Tile, now: real): (s: TileSnapshot)
    ensures s.msgType == "heartbeat" && s.nodeId == t.id && s.timestamp == now
    ensures s.metrics == t.metrics && s.status == t.status
  {
    TileSnapshot("heartbeat", t.id, now, t.metrics, t.status)
  }

  /** The board's status snapshot: one heartbeat per tile, keyed by tile id
      (all clock readings are taken to be `now`). */
  function GetSnapshot(b: Board, now: real): (s: BoardSnapshot)
    ensures s.msgType == "status_snapshot" && s.timestamp == now
    ensures s.nodes.Keys == b.tiles.Keys
    ensures forall id :: id in s.nodes ==>
              && s.nodes[id].msgType == "heartbeat" && s.nodes[id].timestamp == now
              && s.nodes[id].status == b.tiles[id].status && s.nodes[id].metrics == b.tiles[id].metrics
    ensures Valid(b) ==> forall id :: id in s.nodes ==> s.nodes[id].nodeId == id
  {
    BoardSnapshot("status_snapshot", now, map id | id in b.tiles :: TileHeartbeat(b.tiles[id], now))
  }

  /** The snapshot of a new board of `n` tiles holds `n` heartbeats, all
      `ok` with no errors, spares included. */
  lemma NewBoardSnapshot(n: nat, count: int, built: real, now: real)
    ensures var s := GetSnapshot(NewBoard(n, count, built), now);
            && |s.nodes.Keys| == n
            && (forall id :: id in s.nodes ==> s.nodes[id].status == Ok && s.nodes[id].metrics.errorCount == 0.0)
  {
    TileCount(n);
    NewBoardHealthy(n, count, built);
  }

  /** Every tile of a new board, spare or not, starts `ok` with no errors. */
  lemma NewBoardHealthy(n: int, count: int, built: real)
    ensures var b := NewBoard(n, count, built);
            forall id :: id in b.tiles ==> b.tiles[id].status == Ok && b.tiles[id].metrics.errorCount == 0.0
  {
    NewBoardTiles(n, count, built);
  }

  /** The first spare, in spare-list order, whose status is `Ok`. */
  function FindAvailableSpare(b: Board): (r: Option<string>)
    requires Valid(b)
    ensures r.Some? ==> exists i :: 0 <= i < |b.spares| && b.spares[i] == r.value
                                    && b.tiles[r.value].status == Ok
                                    && forall j :: 0 <= j < i ==> b.tiles[b.spares[j]].status != Ok
    ensures r.None? <==> forall i :: 0 <= i < |b.spares| ==> b.tiles[b.spares[i]].status != Ok
  {
    FirstOkSpare(b.tiles, b.spares)
  }

  function FirstOkSpare(tiles: map<string, Tile>, spares: seq<string>): (r: Option<string>)
    requires forall i :: 0 <= i < |spares| ==> spares[i] in tiles
    ensures r.Some? ==> exists i :: 0 <= i < |spares| && spares[i] == r.value
                                    && tiles[r.value].status == Ok
                                    && forall j :: 0 <= j < i ==> tiles[spares[j]].status != Ok
    ensures r.None? <==> forall i :: 0 <= i < |spares| ==> tiles[spares[i]].status != Ok
    decreases |spares|
  {
    if |spares| == 0 then None
    else if tiles[spares[0]].status == Ok then Some(spares[0])
    else
      var r := FirstOkSpare(tiles, spares[1..]);
      assert forall i :: 1 <= i < |spares| ==> spares[i] == spares[1..][i - 1];
      r
  }

  // ---------------------------------------------------------------------------
  // Mutations
  // ---------------------------------------------------------------------------

  datatype Injected = Injected(tile: string, faultType: string)
  datatype Cleared = Cleared(tile: string)

  /** Injects a fault into one tile; an unknown (or missing) id raises. */
  function InjectFault(b: Board, id: Option<string>, faultType: string, duration: Option<real>,
                       params: map<string, real>, now: real, draw: Draw): (r: Result<(Board, Injected), BoardError>)
    ensures r.Failure? <==> !HasTile(b, id)
    ensures r.Failure? ==> r.error == UnknownTile(id)
    ensures r.Success? ==> r.value.1 == Injected(id.value, faultType)
    ensures r.Success? ==> OnlyTileChanged(b, r.value.0, id.value)
    ensures r.Success? ==> r.value.0.tiles[id.value]
                           == ApplyFault(b.tiles[id.value], faultType, duration, params, now, draw)
    ensures r.Success? && Valid(b) ==> Valid(r.value.0)
  {
    if !HasTile(b, id) then Failure(UnknownTile(id))
    else
      var t := ApplyFault(b.tiles[id.value], faultType, duration, params, now, draw);
      Success((b.(tiles := b.tiles[id.value := t]), Injected(id.value, faultType)))
  }

  /** Clears the forced fault of one tile; an unknown (or missing) id raises. */
  function ClearTileFault(b: Board, id: Option<string>): (r: Result<(Board, Cleared), BoardError>)
    ensures r.Failure? <==> !HasTile(b, id)
    ensures r.Failure? ==> r.error == UnknownTile(id)
    ensures r.Success? ==> r.value.1 == Cleared(id.value)
    ensures r.Success? ==> OnlyTileChanged(b, r.value.0, id.value)
    ensures r.Success? ==> r.value.0.tiles[id.value] == ClearFault(b.tiles[id.value])
    ensures r.Success? && Valid(b) ==> Valid(r.value.0)
  {
    if !HasTile(b, id) then Failure(UnknownTile(id))
    else
      Success((b.(tiles := b.tiles[id.value := ClearFault(b.tiles[id.value])]), Cleared(id.value)))
  }

  datatype SwapError = NotASpare | NoTarget
  datatype SwapResult = Swapped(target: string, spare: string) | SwapFailed(reason: SwapError)

  /** The module a swap loads onto the spare: the target's own module, or
      `module_<target>` when it has none (or an empty name). */
  function ModuleFor(target: string, loaded: Option<string>): (m: string)
    ensures Truthy(loaded) ==> m == loaded.value
    ensures !Truthy(loaded) ==> m == "module_" + target
  {
    if Truthy(loaded) then loaded.value else "module_" + target
  }

  /** Moves the target's logic onto a spare: the spare takes the module and a
      copy of the metrics and becomes `Ok`; the target is isolated with zero
      load. The spare is checked first, then the target. */
  function PerformFastSwap(b: Board, target: Option<string>, spare: string): (r: (Board, SwapResult))
    requires Valid(b)
    ensures spare !in b.spares ==> r == (b, SwapFailed(NotASpare))
    ensures spare in b.spares && !HasTile(b, target) ==> r == (b, SwapFailed(NoTarget))
    ensures r.1.Swapped? <==> spare in b.spares && HasTile(b, target)
    ensures Valid(r.0)
    ensures r.1.Swapped? ==> r.1 == Swapped(target.value, spare)
    ensures r.1.Swapped? ==> r.0.tiles.Keys == b.tiles.Keys && r.0.spares == b.spares
    ensures r.1.Swapped? ==> forall k :: k in b.tiles && k != target.value && k != spare ==>
                                          r.0.tiles[k] == b.tiles[k]
    ensures r.1.Swapped? && target.value != spare ==>
              var src := b.tiles[target.value];
              && r.0.tiles[spare] == b.tiles[spare].(status := Ok, metrics := src.metrics,
                                                      prLoaded := Some(ModuleFor(target.value, src.prLoaded)))
              && r.0.tiles[target.value] == src.(status := Isolated, metrics := src.metrics.(load := 0.0))
    ensures r.1.Swapped? && target.value == spare ==>
              var src := b.tiles[spare];
              r.0.tiles[spare] == src.(status := Isolated, metrics := src.metrics.(load := 0.0),
                                       prLoaded := Some(ModuleFor(spare, src.prLoaded)))
  {
    if spare !in b.spares then (b, SwapFailed(NotASpare))
    else if !HasTile(b, target) then (b, SwapFailed(NoTarget))
    else
      var tid := target.value;
      var src := b.tiles[tid];
      var dst := b.tiles[spare].(prLoaded := Some(ModuleFor(tid, src.prLoaded)), status := Ok,
                                 metrics := src.metrics);
      var tiles1 := b.tiles[spare := dst];
      var isolated := tiles1[tid].(status := Isolated, metrics := tiles1[tid].metrics.(load := 0.0));
      (b.(tiles := tiles1[tid := isolated]), Swapped(tid, spare))
  }

  /** Sets an existing tile's status to `Isolated`; an unknown id leaves the
      board as it is. */
  function IsolateTile(b: Board, id: Option<string>): (r: Board)
    ensures !HasTile(b, id) ==> r == b
    ensures HasTile(b, id) ==> OnlyTileChanged(b, r, id.value)
                               && r.tiles[id.value] == b.tiles[id.value].(status := Isolated)
    ensures Valid(b) ==> Valid(r)
  {
    if HasTile(b, id) then b.(tiles := b.tiles[id.value := b.tiles[id.value].(status := Isolated)])
    else b
  }
}
