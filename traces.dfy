/** Reduction of tracing-service data to one timing record per generator instance
    (timingsCollector/src/timingsCollector.js, `queryXRayForTimings` to `processSegment`).

    Times are integers in microseconds. A trace's segments are given as already-decoded
    segment documents; the trace-summary search is given as the sequence of pages it answers
    with and the batch trace fetch as a function from trace IDs to traces. */
module Traces {
  import opened Common
  import opened Paging
  import opened Sorting
  import opened Generators

  /** The segment covering the whole invocation, including time outside user code. */
  const LambdaOrigin: string := "AWS::Lambda"
  /** The segment covering user code only. */
  const FunctionOrigin: string := "AWS::Lambda::Function"

  /** The search looks back one hour from the time of the call. */
  const LookbackMicros: int := 60 * 60 * 1000000

  datatype Subsegment = Subsegment(endTime: int)

  datatype SegmentDocument = SegmentDocument(
    origin: string,
    startTime: int,
    endTime: int,
    subsegments: Option<seq<Subsegment>>)

  datatype Trace = Trace(id: string, segments: seq<SegmentDocument>)

  datatype ProcessedSegment = ProcessedSegment(origin: string, startTime: int, endTime: int, duration: int)

  datatype TraceSummary = TraceSummary(id: string)

  datatype TraceTiming = TraceTiming(
    generatorID: string,
    runtime: string,
    memory: string,
    packageSize: string,
    region: string,
    vpc: string,
    systemDuration: int,
    userDuration: int,
    totalDuration: int,
    traceId: string,
    startTime: int,
    startFullDateTime: string)

  // ---------------------------------------------------------------------------------------
  // processSegment

  /** `Math.max(...xs)` over a non-empty list. */
  function MaxOf(xs: seq<int>): (m: int)
    requires |xs| > 0
    ensures m in xs
    ensures forall k :: 0 <= k < |xs| ==> xs[k] <= m
  {
    if |xs| == 1 then xs[0]
    else
      var rest := MaxOf(xs[1..]);
      assert forall k :: 1 <= k < |xs| ==> xs[k] == xs[1..][k - 1];
      if xs[0] >= rest then xs[0] else rest
  }

  /** The document's own end time followed, when it has subsegments, by theirs. */
  function EndTimes(doc: SegmentDocument): (ts: seq<int>)
    ensures |ts| > 0 && ts[0] == doc.endTime
    ensures doc.subsegments.None? ==> |ts| == 1
    ensures doc.subsegments.Some? ==> |ts| == 1 + |doc.subsegments.value|
    ensures doc.subsegments.Some? ==> forall k :: 0 <= k < |doc.subsegments.value| ==> ts[k + 1] == doc.subsegments.value[k].endTime
  {
    match doc.subsegments
    case None => [doc.endTime]
    case Some(subs) =>
      var ends := seq(|subs|, k requires 0 <= k < |subs| => subs[k].endTime);
      assert |ends| == |subs| && forall k :: 0 <= k < |subs| ==> ends[k] == subs[k].endTime;
      [doc.endTime] + ends
  }

  /** processSegment: a segment's effective end is the latest of its own end and its
      subsegments' ends, because subsegment activity can outlast the recorded end; its
      duration runs from its start to that effective end. */
  function ProcessSegment(doc: SegmentDocument): (p: ProcessedSegment)
    ensures p.origin == doc.origin && p.startTime == doc.startTime
    ensures p.endTime >= doc.endTime
    ensures doc.subsegments.Some? ==> forall k :: 0 <= k < |doc.subsegments.value| ==> doc.subsegments.value[k].endTime <= p.endTime
    ensures (p.endTime == doc.endTime
             || (doc.subsegments.Some? && exists k :: 0 <= k < |doc.subsegments.value| && doc.subsegments.value[k].endTime == p.endTime))
    ensures p.duration == p.endTime - doc.startTime
  {
    var ends := EndTimes(doc);
    var endTime := MaxOf(ends);
    assert doc.subsegments.Some? ==> forall k :: 0 <= k < |doc.subsegments.value| ==> doc.subsegments.value[k].endTime <= endTime by {
      if doc.subsegments.Some? {
        forall k | 0 <= k < |doc.subsegments.value| ensures doc.subsegments.value[k].endTime <= endTime {
          assert ends[k + 1] == doc.subsegments.value[k].endTime;
        }
      }
    }
    assert endTime != doc.endTime ==> doc.subsegments.Some? && exists k :: 0 <= k < |doc.subsegments.value| && doc.subsegments.value[k].endTime == endTime by {
      if endTime != doc.endTime {
        var i :| 0 <= i < |ends| && ends[i] == endTime;
        assert i > 0 && ends[i] == doc.subsegments.value[i - 1].endTime;
      }
    }
    ProcessedSegment(doc.origin, doc.startTime, endTime, endTime - doc.startTime)
  }

  /** A segment whose subsegment ends after the segment's recorded end lasts until the
      subsegment's end: start 10 s, end 15 s and a subsegment ending at 18 s give 8 s. */
  lemma SubsegmentExtendsSegment()
    ensures ProcessSegment(SegmentDocument(LambdaOrigin, 10000000, 15000000, Some([Subsegment(18000000)]))).duration == 8000000
  {
    var doc := SegmentDocument(LambdaOrigin, 10000000, 15000000, Some([Subsegment(18000000)]));
    var p := ProcessSegment(doc);
    assert p.endTime == 15000000 || p.endTime == 18000000;
  }

  // ---------------------------------------------------------------------------------------
  // to3DPs

  /** `Math.round(seconds * 1000) / 1000` on a time in microseconds: the nearest whole
      millisecond, halves rounded upwards. */
  function To3DPs(us: int): (r: int)
    ensures r % 1000 == 0
    ensures us - 500 < r <= us + 500
  {
    ((us + 500) / 1000) * 1000
  }

  /** There is exactly one whole millisecond in the half-open window that To3DPs picks from,
      so any value rounded that way is To3DPs's result. */
  lemma To3DPsUnique(us: int, r: int)
    requires r % 1000 == 0 && us - 500 < r <= us + 500
    ensures r == To3DPs(us)
  {
    var s := To3DPs(us);
    var a, b := r / 1000, s / 1000;
    assert r == 1000 * a && s == 1000 * b;
    assert -1000 < 1000 * (a - b) < 1000;
  }

  /** Rounding keeps the sign of a non-negative duration. */
  lemma To3DPsNonNegative(us: int)
    requires us >= 0
    ensures To3DPs(us) >= 0
  {
    var r := To3DPs(us);
    assert r == 1000 * (r / 1000);
  }

  // ---------------------------------------------------------------------------------------
  // processTrace

  ghost predicate HasOrigin(segments: seq<SegmentDocument>, origin: string)
  {
    exists k :: 0 <= k < |segments| && segments[k].origin == origin
  }

  /** Segment `k` is the first one with the given origin. */
  ghost predicate FirstWithOrigin(segments: seq<SegmentDocument>, origin: string, k: int)
  {
    0 <= k < |segments| && segments[k].origin == origin && forall j :: 0 <= j < k ==> segments[j].origin != origin
  }

  /** `processedSegments.find(seg => seg.origin == origin)`: the processed form of the first
      segment with that origin. Processing keeps a segment's origin, so finding among the
      processed segments finds the processed form of the first matching document. */
  function FindSegment(segments: seq<SegmentDocument>, origin: string): (r: Option<ProcessedSegment>)
    ensures r.None? <==> !HasOrigin(segments, origin)
    ensures r.Some? ==> exists k :: FirstWithOrigin(segments, origin, k) && r.value == ProcessSegment(segments[k])
  {
    if segments == [] then None
    else if segments[0].origin == origin then
      assert FirstWithOrigin(segments, origin, 0);
      Some(ProcessSegment(segments[0]))
    else
      var r := FindSegment(segments[1..], origin);
      OriginInTail(segments, origin);
      assert r.Some? ==> exists k :: FirstWithOrigin(segments, origin, k) && r.value == ProcessSegment(segments[k]) by {
        if r.Some? {
          var k :| FirstWithOrigin(segments[1..], origin, k) && r.value == ProcessSegment(segments[1..][k]);
          FirstInTail(segments, origin, k);
        }
      }
      r
  }

  /** Past a first segment of another origin, the origin occurs in the rest or nowhere. */
  lemma OriginInTail(segments: seq<SegmentDocument>, origin: string)
    requires segments != [] && segments[0].origin != origin
    ensures HasOrigin(segments, origin) <==> HasOrigin(segments[1..], origin)
  {
    if HasOrigin(segments, origin) {
      var k :| 0 <= k < |segments| && segments[k].origin == origin;
      assert segments[1..][k - 1] == segments[k];
    }
    if HasOrigin(segments[1..], origin) {
      var k :| 0 <= k < |segments[1..]| && segments[1..][k].origin == origin;
      assert segments[k + 1] == segments[1..][k];
    }
  }

  /** Past a first segment of another origin, the first match of the rest is the first
      match of the whole, one place further on. */
  lemma FirstInTail(segments: seq<SegmentDocument>, origin: string, k: int)
    requires segments != [] && segments[0].origin != origin
    requires FirstWithOrigin(segments[1..], origin, k)
    ensures FirstWithOrigin(segments, origin, k + 1) && segments[k + 1] == segments[1..][k]
  {
    forall j | 0 <= j < k + 1 ensures segments[j].origin != origin {
      if j > 0 {
        assert segments[j] == segments[1..][j - 1];
      }
    }
  }

  /** The configuration fields of a timing are those of the instance it was measured for. */
  ghost predicate ConfiguredBy(t: TraceTiming, generator: InstanceSpec)
  {
    && t.generatorID == generator.generatorID
    && t.runtime == generator.runtime
    && t.memory == generator.memory
    && t.packageSize == generator.packageSize
    && t.region == generator.region
    && t.vpc == generator.vpc
  }

  /** The durations of a timing split the whole-invocation segment `total` into the time
      outside user code and the user-code segment `user`, each rounded to the millisecond;
      the timing starts when `total` starts. */
  ghost predicate DecomposedFrom(t: TraceTiming, total: ProcessedSegment, user: ProcessedSegment)
  {
    && t.systemDuration == To3DPs(total.duration - user.duration)
    && t.userDuration == To3DPs(user.duration)
    && t.totalDuration == To3DPs(total.duration)
    && t.startTime == total.startTime
  }

  /** processTrace: the timing of one trace for one instance. A trace without a
      whole-invocation segment fails first; one without a user-code segment fails next.
      `dateString` renders a start time as `Date#toString` does. */
  function ProcessTrace(trace: Trace, generator: InstanceSpec, dateString: int -> string): (r: Result<TraceTiming>)
    ensures r.Ok? <==> HasOrigin(trace.segments, LambdaOrigin) && HasOrigin(trace.segments, FunctionOrigin)
    ensures !HasOrigin(trace.segments, LambdaOrigin) ==> r == Err(MissingSegment(LambdaOrigin))
    ensures HasOrigin(trace.segments, LambdaOrigin) && !HasOrigin(trace.segments, FunctionOrigin) ==> r == Err(MissingSegment(FunctionOrigin))
    ensures r.Ok? ==> ConfiguredBy(r.value, generator) && r.value.traceId == trace.id
    ensures r.Ok? ==> exists t, u :: (FirstWithOrigin(trace.segments, LambdaOrigin, t) && FirstWithOrigin(trace.segments, FunctionOrigin, u)
                                      && DecomposedFrom(r.value, ProcessSegment(trace.segments[t]), ProcessSegment(trace.segments[u]))
                                      && r.value.startFullDateTime == dateString(trace.segments[t].startTime))
  {
    match FindSegment(trace.segments, LambdaOrigin)
    case None => Err(MissingSegment(LambdaOrigin))
    case Some(entire) =>
      match FindSegment(trace.segments, FunctionOrigin)
      case None => Err(MissingSegment(FunctionOrigin))
      case Some(user) =>
        var timing := TraceTiming(generator.generatorID, generator.runtime, generator.memory, generator.packageSize,
                                  generator.region, generator.vpc,
                                  To3DPs(entire.duration - user.duration), To3DPs(user.duration), To3DPs(entire.duration),
                                  trace.id, entire.startTime, dateString(entire.startTime));
        assert exists t, u :: (FirstWithOrigin(trace.segments, LambdaOrigin, t) && FirstWithOrigin(trace.segments, FunctionOrigin, u)
                               && DecomposedFrom(timing, ProcessSegment(trace.segments[t]), ProcessSegment(trace.segments[u]))
                               && timing.startFullDateTime == dateString(trace.segments[t].startTime)) by {
          var t :| FirstWithOrigin(trace.segments, LambdaOrigin, t) && entire == ProcessSegment(trace.segments[t]);
          var u :| FirstWithOrigin(trace.segments, FunctionOrigin, u) && user == ProcessSegment(trace.segments[u]);
          DecomposedBy(timing, entire, user, ProcessSegment(trace.segments[t]), ProcessSegment(trace.segments[u]));
        }
        Ok(timing)
  }

  lemma DecomposedBy(timing: TraceTiming, total: ProcessedSegment, user: ProcessedSegment, total': ProcessedSegment, user': ProcessedSegment)
    requires DecomposedFrom(timing, total, user) && total == total' && user == user'
    ensures DecomposedFrom(timing, total', user')
  {
  }

  /** The three durations are rounded separately, so system + user can miss the total by one
      millisecond either way, and by nothing more. */
  lemma RoundingDrift(t: TraceTiming, total: ProcessedSegment, user: ProcessedSegment)
    requires DecomposedFrom(t, total, user)
    ensures t.systemDuration + t.userDuration - t.totalDuration in {-1000, 0, 1000}
  {
    var d := t.systemDuration + t.userDuration - t.totalDuration;
    var a, b, c := t.systemDuration / 1000, t.userDuration / 1000, t.totalDuration / 1000;
    assert t.systemDuration == 1000 * a && t.userDuration == 1000 * b && t.totalDuration == 1000 * c;
    assert d == 1000 * (a + b - c);
    assert -1500 < d < 1500;
  }

  /** The drift happens: a 1 ms invocation of which 0.5 ms is user code reports 1 ms of
      system time, 1 ms of user time and 1 ms in total. */
  lemma RoundingDriftOccurs()
    ensures To3DPs(1000 - 500) + To3DPs(500) != To3DPs(1000)
  {
  }

  /** Outer 1.234567 s and inner 0.234567 s give system 1.000 s, user 0.235 s and total
      1.235 s. */
  lemma DecompositionExample()
    ensures To3DPs(1234567 - 234567) == 1000000
    ensures To3DPs(234567) == 235000
    ensures To3DPs(1234567) == 1235000
  {
  }

  /** When user code takes no longer than the whole invocation, system time is not negative. */
  lemma SystemDurationNonNegative(t: TraceTiming, total: ProcessedSegment, user: ProcessedSegment)
    requires DecomposedFrom(t, total, user) && user.duration <= total.duration
    ensures t.systemDuration >= 0
  {
    To3DPsNonNegative(total.duration - user.duration);
  }

  // ---------------------------------------------------------------------------------------
  // The latest pick and the query

  /** The comparator `(a, b) => a.startTime - b.startTime` as an order. */
  predicate StartsNoLater(a: TraceTiming, b: TraceTiming)
  {
    a.startTime <= b.startTime
  }

  lemma StartOrder()
    ensures TotalPreorder(StartsNoLater)
  {
  }

  /** The last element after sorting by start time, ascending: a timing that started no
      earlier than any other, or None (`undefined`) when there are no timings. */
  function LatestTiming(timings: seq<TraceTiming>): (r: Option<TraceTiming>)
    ensures r.None? <==> timings == []
    ensures r.Some? ==> r.value in timings
    ensures r.Some? ==> forall t :: t in timings ==> t.startTime <= r.value.startTime
  {
    StartOrder();
    var sorted := SortBy(timings, StartsNoLater);
    if |sorted| == 0 then None
    else
      SortedEnds(timings, sorted, StartsNoLater);
      Some(sorted[|sorted| - 1])
  }

  /** One call of the trace-summary search. */
  datatype SummaryQuery = SummaryQuery(startTime: int, endTime: int, filterExpression: string, nextToken: Option<string>)

  /** `service("<function name>")` */
  function ServiceFilter(functionName: string): string
  {
    "service(\"" + functionName + "\")"
  }

  /** The calls getPaginatedTraceSummaries makes when the search answers with `pages`: the
      window ends at the time of the first call and spans the hour before it, every call
      filters by the instance's function, the first call carries no token (`null`) and every
      later one the token of the page before it. */
  function SummaryQueries<T>(nowMicros: int, functionName: string, pages: seq<Page<T>>): (qs: seq<SummaryQuery>)
    ensures |qs| == Requests(pages)
    ensures forall n :: 0 <= n < |qs| ==> qs[n].endTime == nowMicros && qs[n].endTime - qs[n].startTime == LookbackMicros
    ensures forall n :: 0 <= n < |qs| ==> qs[n].filterExpression == ServiceFilter(functionName)
    ensures |qs| > 0 ==> qs[0].nextToken == None
    ensures forall n :: 1 <= n < |qs| ==> qs[n].nextToken == pages[n - 1].nextToken && Truthy(qs[n].nextToken)
  {
    var count := Requests(pages);
    var qs := seq(count, n requires 0 <= n < count =>
                    SummaryQuery(nowMicros - LookbackMicros, nowMicros, ServiceFilter(functionName),
                                 if n == 0 then None else pages[n - 1].nextToken));
    assert |qs| == count && forall n :: 0 <= n < count ==>
             qs[n] == SummaryQuery(nowMicros - LookbackMicros, nowMicros, ServiceFilter(functionName),
                                   if n == 0 then None else pages[n - 1].nextToken);
    RequestsTokens(pages);
    qs
  }

  /** Every page but the last one requested carries a truthy token. */
  lemma {:induction false} RequestsTokens<T>(pages: seq<Page<T>>)
    ensures forall n :: 0 <= n < Requests(pages) - 1 ==> Truthy(pages[n].nextToken)
  {
    if pages != [] && Truthy(pages[0].nextToken) {
      RequestsTokens(pages[1..]);
      forall n | 1 <= n < Requests(pages) - 1 ensures Truthy(pages[n].nextToken) {
        assert pages[n] == pages[1..][n - 1];
      }
    }
  }

  function SummaryIds(summaries: seq<TraceSummary>): (ids: seq<string>)
    ensures |ids| == |summaries|
    ensures forall k :: 0 <= k < |ids| ==> ids[k] == summaries[k].id
  {
    var ids := seq(|summaries|, k requires 0 <= k < |summaries| => summaries[k].id);
    assert |ids| == |summaries| && forall k :: 0 <= k < |ids| ==> ids[k] == summaries[k].id;
    ids
  }

  /** The traces the batch fetch returns for the summaries the search yields, when the search
      can be drained. */
  function FetchedTraces(summaryPages: seq<Page<TraceSummary>>, batchGetTraces: seq<string> -> seq<Trace>): (r: Option<seq<Trace>>)
    ensures r.Some? <==> exists k :: 0 <= k < |summaryPages| && !Truthy(summaryPages[k].nextToken)
    ensures r.Some? ==> exists k: nat ::
              LastPage(summaryPages, k) && r.value == batchGetTraces(SummaryIds(Flatten(PageItems(summaryPages[..k + 1]))))
  {
    match Paginate(summaryPages, [])
    case None => None
    case Some(summaries) =>
      assert exists k: nat :: LastPage(summaryPages, k) && summaries == Flatten(PageItems(summaryPages[..k + 1])) by {
        var k: nat :| LastPage(summaryPages, k) && summaries == [] + Flatten(PageItems(summaryPages[..k + 1]));
        assert [] + Flatten(PageItems(summaryPages[..k + 1])) == Flatten(PageItems(summaryPages[..k + 1]));
      }
      Some(batchGetTraces(SummaryIds(summaries)))
  }

  /** `traces.map(trace => processTrace(trace, generator))` */
  function ProcessTraces(traces: seq<Trace>, generator: InstanceSpec, dateString: int -> string): (rs: seq<Result<TraceTiming>>)
    ensures |rs| == |traces|
    ensures forall k :: 0 <= k < |rs| ==> rs[k] == ProcessTrace(traces[k], generator, dateString)
  {
    var rs := seq(|traces|, k requires 0 <= k < |traces| => ProcessTrace(traces[k], generator, dateString));
    assert |rs| == |traces| && forall k :: 0 <= k < |rs| ==> rs[k] == ProcessTrace(traces[k], generator, dateString);
    rs
  }

  /** `timingData.sort(byStartTime)[timingData.length - 1]` after a map whose callback can
      fail: the first failure, or else the latest timing (None when there is none). */
  function LatestOf(rs: seq<Result<TraceTiming>>): (r: Result<Option<TraceTiming>>)
    ensures r.Ok? <==> forall k :: 0 <= k < |rs| ==> rs[k].Ok?
    ensures r.Err? ==> exists k :: 0 <= k < |rs| && rs[k] == Err(r.error)
    ensures r.Err? ==> r.error == FirstError(rs)
    ensures r.Ok? ==> (r.value.None? <==> rs == [])
    ensures r.Ok? && r.value.Some? ==> exists k :: 0 <= k < |rs| && rs[k] == Ok(r.value.value)
    ensures r.Ok? && r.value.Some? ==> forall k :: 0 <= k < |rs| ==> rs[k].value.startTime <= r.value.value.startTime
  {
    match AllOk(rs)
    case Err(e) => Err(e)
    case Ok(timings) =>
      var latest := LatestTiming(timings);
      assert latest.Some? ==> forall k :: 0 <= k < |rs| ==> rs[k].value.startTime <= latest.value.startTime by {
        if latest.Some? {
          forall k | 0 <= k < |rs| ensures rs[k].value.startTime <= latest.value.startTime {
            assert timings[k] in timings;
          }
        }
      }
      Ok(latest)
  }

  /** queryXRayForTimings: drain the summary search for the instance, fetch the traces,
      reduce each, and keep the latest. No trace at all gives None (`undefined`) rather than
      a failure; a trace missing one of its two segments is a failure. */
  function QueryXRayForTimings(generator: InstanceSpec, summaryPages: seq<Page<TraceSummary>>,
                               batchGetTraces: seq<string> -> seq<Trace>, dateString: int -> string): (r: Result<Option<TraceTiming>>)
    ensures FetchedTraces(summaryPages, batchGetTraces).None? ==> r == Err(PagesExhausted)
    ensures FetchedTraces(summaryPages, batchGetTraces).Some? ==>
              r == LatestOf(ProcessTraces(FetchedTraces(summaryPages, batchGetTraces).value, generator, dateString))
    ensures r.Err? ==> r.error in {PagesExhausted, MissingSegment(LambdaOrigin), MissingSegment(FunctionOrigin)}
    ensures r.Ok? && r.value.Some? ==> ConfiguredBy(r.value.value, generator)
  {
    match FetchedTraces(summaryPages, batchGetTraces)
    case None => Err(PagesExhausted)
    case Some(traces) =>
      var rs := ProcessTraces(traces, generator, dateString);
      var r := LatestOf(rs);
      assert r.Err? ==> r.error in {MissingSegment(LambdaOrigin), MissingSegment(FunctionOrigin)} by {
        if r.Err? {
          var k :| 0 <= k < |rs| && rs[k] == Err(r.error);
          assert rs[k] == ProcessTrace(traces[k], generator, dateString);
        }
      }
      assert r.Ok? && r.value.Some? ==> ConfiguredBy(r.value.value, generator) by {
        if r.Ok? && r.value.Some? {
          var k :| 0 <= k < |rs| && rs[k] == Ok(r.value.value);
          assert rs[k] == ProcessTrace(traces[k], generator, dateString);
        }
      }
      r
  }
}
