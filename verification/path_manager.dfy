/** The recovery-plan recommender: a cache of plans that worked, keyed by a
    fingerprint of the fault context, then an optional fault-type-to-spare
    mapping, then a heuristic choice from the spare pool, then isolation.
    The SHA-1 digest behind the fingerprint is an arbitrary function given
    with the recommender. */
module PathManager {
  import opened Basics
  import opened Text

  /** The fields of a fault context the recommender reads. */
  datatype FaultContext = FaultContext(
    nodeId: Option<string>,
    faultType: Option<string>,
    metrics: Option<map<string, real>>)

  datatype Plan = Plan(
    action: string,
    spareId: Option<string>,
    playbook: Option<string>,
    confidence: real,
    source: string)

  /** The tuple a fingerprint is computed from: node, fault type, load in
      tenths and temperature in whole degrees (each truncated toward zero and
      rendered in decimal). */
  datatype FingerprintKey = FingerprintKey(node: string, faultType: string, loadBucket: string, tempBucket: string)

  /** `mapping` is the loaded model's fault-type-to-spare table (empty when
      there is no model, or the model has no mapping). */
  datatype Recommender = Recommender(
    cache: map<string, Plan>,
    mapping: map<string, string>,
    sparePool: seq<string>,
    digest: FingerprintKey -> string)

  const DefaultSparePool: seq<string> := ["spare_1", "spare_2", "spare_3"]

  function NewRecommender(mapping: map<string, string>, digest: FingerprintKey -> string): (r: Recommender)
    ensures r.cache == map[] && r.sparePool == DefaultSparePool
    ensures r.mapping == mapping && r.digest == digest
  {
    Recommender(map[], mapping, DefaultSparePool, digest)
  }

  function MetricOf(ctx: FaultContext, name: string): real
  {
    Lookup(ctx.metrics.GetOr(map[]), name, 0.0)
  }

  function KeyOf(ctx: FaultContext): (k: FingerprintKey)
    ensures k.node == ctx.nodeId.GetOr("") && k.faultType == ctx.faultType.GetOr("")
    ensures k.loadBucket == IntToString(Trunc(MetricOf(ctx, "load") * 10.0))
    ensures k.tempBucket == IntToString(Trunc(MetricOf(ctx, "temp_c")))
  {
    FingerprintKey(ctx.nodeId.GetOr(""), ctx.faultType.GetOr(""),
                   IntToString(Trunc(MetricOf(ctx, "load") * 10.0)),
                   IntToString(Trunc(MetricOf(ctx, "temp_c"))))
  }

  /** The cache key of a context: the recommender's digest of its rendered
      key (SHA-1 over `repr(key)` in the source, left abstract here). */
  function Fingerprint(pm: Recommender, ctx: FaultContext): (f: string)
    ensures f == pm.digest(KeyOf(ctx))
  {
    pm.digest(KeyOf(ctx))
  }

  /** Contexts that agree on node, fault type, load in tenths and whole
      degrees share a fingerprint, and hence a cache entry. */
  lemma SameBucketsSameFingerprint(pm: Recommender, a: FaultContext, b: FaultContext)
    requires a.nodeId.GetOr("") == b.nodeId.GetOr("") && a.faultType.GetOr("") == b.faultType.GetOr("")
    requires Trunc(MetricOf(a, "load") * 10.0) == Trunc(MetricOf(b, "load") * 10.0)
    requires Trunc(MetricOf(a, "temp_c")) == Trunc(MetricOf(b, "temp_c"))
    ensures Fingerprint(pm, a) == Fingerprint(pm, b)
  {
  }

  /** Contexts whose load buckets differ have different fingerprint keys, so
      only a digest collision could make them share a cache entry. */
  lemma DifferentLoadBucketsDifferentKeys(a: FaultContext, b: FaultContext)
    requires Trunc(MetricOf(a, "load") * 10.0) != Trunc(MetricOf(b, "load") * 10.0)
    ensures KeyOf(a) != KeyOf(b)
  {
    if KeyOf(a) == KeyOf(b) {
      IntToStringInjective(Trunc(MetricOf(a, "load") * 10.0), Trunc(MetricOf(b, "load") * 10.0));
    }
  }

  /** Likewise for temperature buckets. */
  lemma DifferentTempBucketsDifferentKeys(a: FaultContext, b: FaultContext)
    requires Trunc(MetricOf(a, "temp_c")) != Trunc(MetricOf(b, "temp_c"))
    ensures KeyOf(a) != KeyOf(b)
  {
    if KeyOf(a) == KeyOf(b) {
      IntToStringInjective(Trunc(MetricOf(a, "temp_c")), Trunc(MetricOf(b, "temp_c")));
    }
  }

  /** A plan registered for one context is what the cache answers for any
      context in the same buckets. */
  lemma SharedCacheEntry(pm: Recommender, a: FaultContext, b: FaultContext, plan: Plan)
    requires a.nodeId.GetOr("") == b.nodeId.GetOr("") && a.faultType.GetOr("") == b.faultType.GetOr("")
    requires Trunc(MetricOf(a, "load") * 10.0) == Trunc(MetricOf(b, "load") * 10.0)
    requires Trunc(MetricOf(a, "temp_c")) == Trunc(MetricOf(b, "temp_c"))
    ensures Recommend(RegisterSuccess(pm, a, plan), b) == plan.(confidence := 0.99, source := "cache")
  {
    SameBucketsSameFingerprint(pm, a, b);
  }

  /** Stores a plan that worked for `ctx`; no other cache entry changes. */
  function RegisterSuccess(pm: Recommender, ctx: FaultContext, plan: Plan): (r: Recommender)
    ensures Fingerprint(r, ctx) in r.cache && r.cache[Fingerprint(r, ctx)] == plan
    ensures r.cache.Keys == pm.cache.Keys + {Fingerprint(pm, ctx)}
    ensures forall fp :: fp in pm.cache && fp != Fingerprint(pm, ctx) ==> r.cache[fp] == pm.cache[fp]
    ensures r.mapping == pm.mapping && r.sparePool == pm.sparePool && r.digest == pm.digest
  {
    pm.(cache := pm.cache[Fingerprint(pm, ctx) := plan])
  }

  /** The first spare of the pool that is not the faulty node itself. */
  function FirstOtherSpare(pool: seq<string>, node: Option<string>): (r: Option<string>)
    ensures r.Some? ==> exists i :: 0 <= i < |pool| && pool[i] == r.value && Some(pool[i]) != node
                                    && forall j :: 0 <= j < i ==> Some(pool[j]) == node
    ensures r.None? <==> forall i :: 0 <= i < |pool| ==> Some(pool[i]) == node
    decreases |pool|
  {
    if |pool| == 0 then None
    else if Some(pool[0]) != node then Some(pool[0])
    else
      var r := FirstOtherSpare(pool[1..], node);
      assert forall i :: 1 <= i < |pool| ==> pool[i] == pool[1..][i - 1];
      r
  }

  function SwapPlan(spare: string, confidence: real, source: string): Plan
  {
    Plan("fast_swap", Some(spare), Some("playbook_for_" + spare), confidence, source)
  }

  const IsolatePlan: Plan := Plan("isolate", None, None, 0.1, "fallback")

  /** The plan for a fault context: a cached plan (confidence 0.99), else a
      swap to the spare the mapping names for the fault type (0.85), else a
      swap to the first pool spare other than the node (0.5), else
      isolation (0.1). */
  function Recommend(pm: Recommender, ctx: FaultContext): (p: Plan)
    ensures Fingerprint(pm, ctx) in pm.cache ==>
              p == pm.cache[Fingerprint(pm, ctx)].(confidence := 0.99, source := "cache")
    ensures Fingerprint(pm, ctx) !in pm.cache ==>
              || (p.action == "fast_swap" && p.spareId.Some? && p.playbook == Some("playbook_for_" + p.spareId.value))
              || (p.action == "isolate" && p.spareId.None? && p.playbook.None?)
    ensures p.source == "model" <==>
              Fingerprint(pm, ctx) !in pm.cache && Truthy(MappedSpare(pm, ctx))
    ensures p.source == "model" ==> p == SwapPlan(MappedSpare(pm, ctx).value, 0.85, "model")
    ensures p.source == "heuristic" ==> p.spareId == FirstOtherSpare(pm.sparePool, ctx.nodeId)
                                        && p.confidence == 0.5
    ensures Fingerprint(pm, ctx) !in pm.cache && !Truthy(MappedSpare(pm, ctx))
            && FirstOtherSpare(pm.sparePool, ctx.nodeId).Some? ==>
              p == SwapPlan(FirstOtherSpare(pm.sparePool, ctx.nodeId).value, 0.5, "heuristic")
    ensures p.source == "fallback" <==>
              && Fingerprint(pm, ctx) !in pm.cache && !Truthy(MappedSpare(pm, ctx))
              && FirstOtherSpare(pm.sparePool, ctx.nodeId).None?
    ensures p.source == "fallback" ==> p == IsolatePlan
  {
    var fp := Fingerprint(pm, ctx);
    if fp in pm.cache then
      pm.cache[fp].(confidence := 0.99, source := "cache")
    else if Truthy(MappedSpare(pm, ctx)) then
      SwapPlan(MappedSpare(pm, ctx).value, 0.85, "model")
    else
      match FirstOtherSpare(pm.sparePool, ctx.nodeId)
      case Some(s) => SwapPlan(s, 0.5, "heuristic")
      case None => IsolatePlan
  }

  /** The spare the mapping names for the context's fault type, if any. */
  function MappedSpare(pm: Recommender, ctx: FaultContext): Option<string>
  {
    var ft := ctx.faultType.GetOr("");
    if ft in pm.mapping then Some(pm.mapping[ft]) else None
  }

  /** Registering a plan and then asking for the same context returns that
      plan from the cache with confidence 0.99. */
  lemma RegisterThenRecommend(pm: Recommender, ctx: FaultContext, plan: Plan)
    ensures Recommend(RegisterSuccess(pm, ctx, plan), ctx) == plan.(confidence := 0.99, source := "cache")
  {
  }

  /** The cache outranks the mapping: a cached context never gets the
      model's plan, even when the mapping names a spare. */
  lemma CacheBeforeModel(pm: Recommender, ctx: FaultContext)
    requires Fingerprint(pm, ctx) in pm.cache && Truthy(MappedSpare(pm, ctx))
    ensures Recommend(pm, ctx).source == "cache"
  {
  }

  /** With the default pool, which holds three different spares, some spare
      always differs from the node, so the isolation fallback is never
      reached: an uncached context always gets a swap. */
  lemma DefaultPoolNeverIsolates(pm: Recommender, ctx: FaultContext)
    requires pm.sparePool == DefaultSparePool
    ensures Recommend(pm, ctx).source != "fallback"
    ensures Fingerprint(pm, ctx) !in pm.cache ==> Recommend(pm, ctx).action == "fast_swap"
  {
    var pool := pm.sparePool;
    assert pool[0] == "spare_1" && pool[1] == "spare_2";
    assert pool[0][6] != pool[1][6];
    assert Some(pool[0]) != ctx.nodeId || Some(pool[1]) != ctx.nodeId;
    assert FirstOtherSpare(pool, ctx.nodeId).Some?;
  }
}
