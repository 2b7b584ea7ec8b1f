/** One run of the collector up to its reports (`collectTimings` in
    timingsCollector/src/timingsCollector.js): build the matrix of generator specs, resolve
    their deployed replicas, take the latest timing of every replica and merge the timings
    back into one row per spec.

    What the AWS services answer is given, not fetched: the pages of each stack's resource
    listing, the pages of each replica's trace-summary search over the last hour, the traces a
    batch fetch returns in each region, and the rendering of a start time as a date. */
module Pipeline {
  import opened Common
  import opened Paging
  import opened Generators
  import opened Traces
  import opened Aggregate

  datatype Services = Services(
    /** The pages of `listStackResources` for a stack name in a region. */
    listing: (string, string) -> seq<Page<StackResource>>,
    /** The pages of `getTraceSummaries` for the function of a replica over the last hour. */
    summaries: InstanceSpec -> seq<Page<TraceSummary>>,
    /** The traces `batchGetTraces` returns for trace IDs in a region. */
    batchGetTraces: (string, seq<string>) -> seq<Trace>,
    /** `new Date(...).toString()` of a start time. */
    dateString: int -> string)

  /** `generators.createGeneratorInstanceSpecs(stackNames, regions, generatorSpecs)` */
  function Instances(regions: seq<string>, stackNames: seq<string>, env: Services): (r: Result<seq<InstanceSpec>>)
    ensures r.Ok? <==> forall i :: 0 <= i < |regions| ==>
              CreateGeneratorInstanceSpecsForRegion(stackNames, SpecsIn(CreateGeneratorSpecs(regions), regions[i]), regions[i], env.listing).Ok?
    ensures r.Ok? && (forall a, b :: 0 <= a < b < |regions| ==> regions[a] != regions[b]) ==>
              ResolvesMatrix(r.value, regions, stackNames, env.listing)
  {
    var r := CreateGeneratorInstanceSpecs(stackNames, regions, CreateGeneratorSpecs(regions), env.listing);
    if r.Ok? && (forall a, b :: 0 <= a < b < |regions| ==> regions[a] != regions[b]) then
      MatrixInstances(stackNames, regions, env.listing);
      r
    else r
  }

  /** `queryXRayForTimings(generator)`, against the X-Ray client of the replica's region. */
  function Query(inst: InstanceSpec, env: Services): (r: Result<Option<TraceTiming>>)
    ensures r.Err? ==> r.error in {PagesExhausted, MissingSegment(LambdaOrigin), MissingSegment(FunctionOrigin)}
    ensures r.Ok? && r.value.Some? ==> ConfiguredBy(r.value.value, inst)
  {
    QueryXRayForTimings(inst, env.summaries(inst), ids => env.batchGetTraces(inst.region, ids), env.dateString)
  }

  /** `generatorInstanceSpecs.map(queryXRayForTimings)` */
  function QueryAll(instances: seq<InstanceSpec>, env: Services): (rs: seq<Result<Option<TraceTiming>>>)
    ensures |rs| == |instances|
    ensures forall x :: 0 <= x < |rs| ==> rs[x] == Query(instances[x], env)
  {
    var rs := seq(|instances|, x requires 0 <= x < |instances| => Query(instances[x], env));
    assert |rs| == |instances| && forall x :: 0 <= x < |rs| ==> rs[x] == Query(instances[x], env);
    rs
  }

  /** `generatorSpecs.map(generator => mergeInstanceTimings(generator, timings))` */
  function MergeAll(specs: seq<GeneratorSpec>, timings: seq<Option<TraceTiming>>): (rs: seq<Result<MergedTiming>>)
    ensures |rs| == |specs|
    ensures forall k :: 0 <= k < |rs| ==> rs[k] == MergeInstanceTimings(specs[k], timings)
  {
    var rs := seq(|specs|, k requires 0 <= k < |specs| => MergeInstanceTimings(specs[k], timings));
    assert |rs| == |specs| && forall k :: 0 <= k < |rs| ==> rs[k] == MergeInstanceTimings(specs[k], timings);
    rs
  }

  /** The merged rows of the specs, once every merge succeeds: each row carries its spec's ID
      and region and was merged from at least three timings. */
  function MergeRows(specs: seq<GeneratorSpec>, timings: seq<Option<TraceTiming>>): (r: Result<seq<MergedTiming>>)
    ensures r.Ok? <==> forall k :: 0 <= k < |specs| ==> MergeInstanceTimings(specs[k], timings).Ok?
    ensures r.Err? ==> r.error == FirstError(MergeAll(specs, timings))
    ensures r.Ok? ==> |r.value| == |specs|
    ensures r.Ok? ==> forall k :: 0 <= k < |specs| ==> r.value[k] == MergeInstanceTimings(specs[k], timings).value
    ensures r.Ok? ==> forall k :: 0 <= k < |specs| ==>
              && r.value[k].generatorID == specs[k].generatorID
              && r.value[k].region == specs[k].region
              && r.value[k].timingsCaptured >= 3
  {
    MergedFields(specs, timings);
    AllOk(MergeAll(specs, timings))
  }

  /** Every successful merge carries its spec's ID and region and counts at least three
      timings. */
  lemma MergedFields(specs: seq<GeneratorSpec>, timings: seq<Option<TraceTiming>>)
    ensures forall k :: 0 <= k < |specs| && MergeAll(specs, timings)[k].Ok? ==>
              && MergeAll(specs, timings)[k].value.generatorID == specs[k].generatorID
              && MergeAll(specs, timings)[k].value.region == specs[k].region
              && MergeAll(specs, timings)[k].value.timingsCaptured >= 3
  {
    var rs := MergeAll(specs, timings);
    forall k | 0 <= k < |specs| && rs[k].Ok?
      ensures rs[k].value.generatorID == specs[k].generatorID && rs[k].value.region == specs[k].region
      ensures rs[k].value.timingsCaptured >= 3
    {
      assert rs[k] == MergeInstanceTimings(specs[k], timings);
    }
  }

  /** collectTimings without the publishing: the report rows, one per spec of the matrix, or
      the failure that ends the run. A failing resolution ends it first, then the first
      failing query, then the first spec whose merge fails. */
  function CollectTimings(regions: seq<string>, stackNames: seq<string>, env: Services): (r: Result<seq<MergedTiming>>)
    ensures Instances(regions, stackNames, env).Err? ==> r == Err(Instances(regions, stackNames, env).error)
    ensures Instances(regions, stackNames, env).Ok? ==>
              var qs := QueryAll(Instances(regions, stackNames, env).value, env);
              && (AllOk(qs).Err? ==> r == Err(AllOk(qs).error))
              && (AllOk(qs).Ok? ==> r == MergeRows(CreateGeneratorSpecs(regions), AllOk(qs).value))
    ensures r.Ok? ==> |r.value| == |CreateGeneratorSpecs(regions)| == SpecsPerRegion * |regions|
    ensures r.Ok? ==> forall k :: 0 <= k < |r.value| ==>
              && r.value[k].generatorID == CreateGeneratorSpecs(regions)[k].generatorID
              && r.value[k].region == CreateGeneratorSpecs(regions)[k].region
              && r.value[k].timingsCaptured >= 3
  {
    match Instances(regions, stackNames, env)
    case Err(e) => Err(e)
    case Ok(instances) =>
      match AllOk(QueryAll(instances, env))
      case Err(e) => Err(e)
      case Ok(timings) => MergeRows(CreateGeneratorSpecs(regions), timings)
  }

  /** A failing query ends the run with the failure of the first replica whose query fails. */
  lemma FailedQueryEndsRun(regions: seq<string>, stackNames: seq<string>, env: Services)
    requires Instances(regions, stackNames, env).Ok?
    requires exists x :: 0 <= x < |QueryAll(Instances(regions, stackNames, env).value, env)|
                         && QueryAll(Instances(regions, stackNames, env).value, env)[x].Err?
    ensures CollectTimings(regions, stackNames, env) == Err(FirstError(QueryAll(Instances(regions, stackNames, env).value, env)))
  {
  }

  // ---------------------------------------------------------------------------------------
  // A complete run

  /** When the regions are distinct, every replica resolves and every replica's query finds a
      trace, the run produces one row per spec, and the row of spec k is made of the latest
      timings of its own three replicas (instances 3k, 3k + 1 and 3k + 2) and of no other:
      three timings captured, the median one reported, the other two as the bounds. */
  lemma CompleteRun(regions: seq<string>, stackNames: seq<string>, env: Services)
    requires forall a, b :: 0 <= a < b < |regions| ==> regions[a] != regions[b]
    requires Instances(regions, stackNames, env).Ok?
    requires forall x :: 0 <= x < |Instances(regions, stackNames, env).value| ==>
               Query(Instances(regions, stackNames, env).value[x], env).Ok?
               && Query(Instances(regions, stackNames, env).value[x], env).value.Some?
    ensures CollectTimings(regions, stackNames, env).Ok?
    ensures |Instances(regions, stackNames, env).value| == 3 * |CreateGeneratorSpecs(regions)|
    ensures forall k :: 0 <= k < |CreateGeneratorSpecs(regions)| ==>
              && CollectTimings(regions, stackNames, env).value[k].timingsCaptured == 3
              && multiset{CollectTimings(regions, stackNames, env).value[k].minOtherSystemDurations,
                          CollectTimings(regions, stackNames, env).value[k].systemDuration,
                          CollectTimings(regions, stackNames, env).value[k].maxOtherSystemDurations}
                 == multiset{Query(Instances(regions, stackNames, env).value[3 * k], env).value.value.systemDuration,
                             Query(Instances(regions, stackNames, env).value[3 * k + 1], env).value.value.systemDuration,
                             Query(Instances(regions, stackNames, env).value[3 * k + 2], env).value.value.systemDuration}
  {
    var specs := CreateGeneratorSpecs(regions);
    var instances := Instances(regions, stackNames, env).value;
    MatrixInstances(stackNames, regions, env.listing);
    var timings, ts := LatestTimings(instances, env);
    forall k | 0 <= k < |specs| ensures RowOf(specs[k], timings, ts, 3 * k) {
      OwnRow(regions, instances, timings, ts, k);
    }
    var rows := MergeRowsComplete(specs, timings, ts);
    assert CollectTimings(regions, stackNames, env) == Ok(rows);
    forall k | 0 <= k < |specs|
      ensures && rows[k].timingsCaptured == 3
              && multiset{rows[k].minOtherSystemDurations, rows[k].systemDuration, rows[k].maxOtherSystemDurations}
                 == multiset{Query(instances[3 * k], env).value.value.systemDuration,
                             Query(instances[3 * k + 1], env).value.value.systemDuration,
                             Query(instances[3 * k + 2], env).value.value.systemDuration}
    {
      assert MergedFrom(rows[k], ts, 3 * k);
    }
  }

  /** The row for `spec` was merged from the three timings at positions x to x + 2 of `ts`. */
  ghost predicate RowOf(spec: GeneratorSpec, timings: seq<Option<TraceTiming>>, ts: seq<TraceTiming>, x: nat)
  {
    MergeInstanceTimings(spec, timings).Ok? && MergedFrom(MergeInstanceTimings(spec, timings).value, ts, x)
  }

  /** `m` was merged from the three timings at positions x to x + 2 of `ts`: three timings
      captured, the median one reported and the other two as the bounds. */
  ghost predicate MergedFrom(m: MergedTiming, ts: seq<TraceTiming>, x: nat)
  {
    && x + 3 <= |ts|
    && m.timingsCaptured == 3
    && multiset{m.minOtherSystemDurations, m.systemDuration, m.maxOtherSystemDurations}
       == multiset{ts[x].systemDuration, ts[x + 1].systemDuration, ts[x + 2].systemDuration}
  }

  lemma MergeRowsComplete(specs: seq<GeneratorSpec>, timings: seq<Option<TraceTiming>>, ts: seq<TraceTiming>) returns (rows: seq<MergedTiming>)
    requires forall k :: 0 <= k < |specs| ==> RowOf(specs[k], timings, ts, 3 * k)
    ensures MergeRows(specs, timings) == Ok(rows) && |rows| == |specs|
    ensures forall k :: 0 <= k < |specs| ==> MergedFrom(rows[k], ts, 3 * k)
  {
    rows := MergeRows(specs, timings).value;
  }

  /** The timings the queries of a run produce when every one of them finds a trace. */
  lemma LatestTimings(instances: seq<InstanceSpec>, env: Services) returns (timings: seq<Option<TraceTiming>>, ts: seq<TraceTiming>)
    requires forall x :: 0 <= x < |instances| ==> Query(instances[x], env).Ok? && Query(instances[x], env).value.Some?
    ensures AllOk(QueryAll(instances, env)) == Ok(timings)
    ensures Defined(timings) == Ok(ts) && |ts| == |instances|
    ensures forall x :: 0 <= x < |ts| ==> ts[x] == Query(instances[x], env).value.value && ConfiguredBy(ts[x], instances[x])
  {
    timings := AllOk(QueryAll(instances, env)).value;
    ts := Defined(timings).value;
    forall x | 0 <= x < |ts| ensures ConfiguredBy(ts[x], instances[x]) {
      QueryConfigured(instances[x], env);
    }
  }

  lemma OwnRow(regions: seq<string>, instances: seq<InstanceSpec>, timings: seq<Option<TraceTiming>>, ts: seq<TraceTiming>, k: nat)
    requires forall a, b :: 0 <= a < b < |regions| ==> regions[a] != regions[b]
    requires |instances| == |ts| == 3 * |CreateGeneratorSpecs(regions)|
    requires forall x :: 0 <= x < |instances| ==> ReplicaOf(CreateGeneratorSpecs(regions)[x / 3], instances[x], x % 3 + 1)
    requires forall x :: 0 <= x < |ts| ==> ConfiguredBy(ts[x], instances[x])
    requires Defined(timings) == Ok(ts)
    requires k < |CreateGeneratorSpecs(regions)|
    ensures RowOf(CreateGeneratorSpecs(regions)[k], timings, ts, 3 * k)
  {
    OwnReplicas(regions, instances, ts, k);
    ThreeDurations(ts[3 * k..3 * k + 3]);
  }

  /** A query that finds a timing finds one configured by the replica it was made for. */
  lemma QueryConfigured(inst: InstanceSpec, env: Services)
    requires Query(inst, env).Ok? && Query(inst, env).value.Some?
    ensures ConfiguredBy(Query(inst, env).value.value, inst)
  {
  }

  /** The timings that mergeInstanceTimings picks out for spec k are exactly those of the
      spec's three replicas, in collection order. */
  lemma OwnReplicas(regions: seq<string>, instances: seq<InstanceSpec>, ts: seq<TraceTiming>, k: nat)
    requires forall a, b :: 0 <= a < b < |regions| ==> regions[a] != regions[b]
    requires |instances| == |ts| == 3 * |CreateGeneratorSpecs(regions)|
    requires forall x :: 0 <= x < |instances| ==> ReplicaOf(CreateGeneratorSpecs(regions)[x / 3], instances[x], x % 3 + 1)
    requires forall x :: 0 <= x < |ts| ==> ConfiguredBy(ts[x], instances[x])
    requires k < |CreateGeneratorSpecs(regions)|
    ensures Matching(CreateGeneratorSpecs(regions)[k], ts) == ts[3 * k..3 * k + 3]
  {
    var spec := CreateGeneratorSpecs(regions)[k];
    var p := (t: TraceTiming) => MatchesGenerator(spec, t);
    forall x | 0 <= x < |ts| ensures p(ts[x]) <==> 3 * k <= x < 3 * k + 3 {
      ReplicaIdentifiesSpec(regions, k, x / 3, instances[x], x % 3 + 1);
    }
    FilterBlock(ts, p, 3 * k, 3 * k + 3);
  }

  // ---------------------------------------------------------------------------------------
  // Runs that fail

  /** A replica whose query finds no trace in the last hour leaves `undefined` among the
      timings, and the first merge then fails reading it: the whole run fails, although every
      other replica was measured. */
  lemma NoTraceFailsRun(regions: seq<string>, stackNames: seq<string>, env: Services, x: nat)
    requires Instances(regions, stackNames, env).Ok?
    requires forall y :: 0 <= y < |Instances(regions, stackNames, env).value| ==> Query(Instances(regions, stackNames, env).value[y], env).Ok?
    requires x < |Instances(regions, stackNames, env).value| && Query(Instances(regions, stackNames, env).value[x], env) == Ok(None)
    ensures CollectTimings(regions, stackNames, env) == Err(MissingTiming)
  {
    RegionsOfInstances(regions, stackNames, env);
    QueryGapFails(CreateGeneratorSpecs(regions), Instances(regions, stackNames, env).value, env, x);
  }

  /** With every query answered and one of them `undefined`, the merges fail. */
  lemma QueryGapFails(specs: seq<GeneratorSpec>, instances: seq<InstanceSpec>, env: Services, x: nat)
    requires |specs| > 0
    requires forall y :: 0 <= y < |instances| ==> Query(instances[y], env).Ok?
    requires x < |instances| && Query(instances[x], env) == Ok(None)
    ensures AllOk(QueryAll(instances, env)).Ok?
    ensures MergeRows(specs, AllOk(QueryAll(instances, env)).value) == Err(MissingTiming)
  {
    var timings := AllOk(QueryAll(instances, env)).value;
    assert timings[x].None?;
    MissingTimingFails(specs, timings, x);
  }

  lemma MissingTimingFails(specs: seq<GeneratorSpec>, timings: seq<Option<TraceTiming>>, x: nat)
    requires |specs| > 0 && x < |timings| && timings[x].None?
    ensures MergeRows(specs, timings) == Err(MissingTiming)
  {
    var merges := MergeAll(specs, timings);
    assert merges[0] == Err(MissingTiming);
  }

  /** Some region contributes instances only when there is some region. */
  lemma RegionsOfInstances(regions: seq<string>, stackNames: seq<string>, env: Services)
    requires Instances(regions, stackNames, env).Ok? && |Instances(regions, stackNames, env).value| > 0
    ensures |regions| > 0
  {
    var specs := CreateGeneratorSpecs(regions);
    assert GroupedByRegion(Instances(regions, stackNames, env).value, regions, InstanceCounts(specs, regions));
  }
}
