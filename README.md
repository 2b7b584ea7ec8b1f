# Lambda benchmarking timings collector: a Dafny model

The timings collector runs once an hour. It works out the benchmark matrix of generator
configurations: region × memory size × VPC attachment × runtime. It resolves each
configuration to the three deployed replicas of its generator function. It asks the tracing
service for the most recent invocation of every replica and splits that invocation's time
into system time (outside user code) and user time. It then merges the three replica
timings of each configuration into one report row, with the median as the row and the
other two as bounds. Finally it writes the rows under keys partitioned by date and hour,
and lists those partitions back for its indexes.

The modules follow the source files:

- `common.dfy` (`Common`): `flatten`, `allRegions`, `getAndCheckEnvVar`, and the JavaScript
  sequence operations the rest is written against (`filter`, `find`, a map whose callback
  can throw, number-to-string). It also holds the `Result`/`Error` types. Every failure the
  modelled code raises itself is an `Error` variant; the failures listed under "Left out" are not.
- `paging.dfy` (`Paging`): NextToken pagination. Both the stack-resource listing and the
  trace-summary search use it.
- `sorting.dfy` (`Sorting`): `Array.prototype.sort` with a comparator, the default string
  sort, `[...new Set(xs)]` and `reverse`.
- `generators.dfy` (`Generators`): the matrix and its resolution to physical function
  names.
- `traces.dfy` (`Traces`): `processSegment`, `processTrace`, `to3DPs` and
  `queryXRayForTimings`.
- `aggregate.dfy` (`Aggregate`): `mergeInstanceTimings` and the rows of `createCSVString`.
- `pipeline.dfy` (`Pipeline`): `collectTimings` up to the publishing. It covers the whole run
  from the regions to the report rows.
- `partitions.dfy` (`Partitions`): `todaysDateYYYYMMDD`, the zero-padded hour, the
  timestamped keys, and `findDaysWithContent` / `findHoursWithContent`.

The AWS services are not called. Their answers are parameters:

- the pages of a stack's resource listing;
- the pages of a trace-summary search;
- the traces a batch fetch returns;
- `Date#toString` of a start time;
- the current date and hour;
- the keys of a bucket listing.

Times are integers in microseconds.

## Model

| member | source | states |
|---|---|---|
| Common.Flatten | timingsCollector/src/common.js:1-3 | the result holds exactly the elements of the inner lists, and its length is the sum of their lengths |
| Common.FlattenAppend | timingsCollector/src/common.js:1-3 | flattening distributes over concatenation of the outer list |
| Common.FlattenUniform | timingsCollector/src/common.js:1-3 | when every inner list has n elements, element j of list i lands at position n·i + j |
| Common.AllOk | timingsCollector/src/timingsCollector.js:31 | a map whose callback can throw (awaited with Promise.all) succeeds iff every call succeeds, with the values in order; otherwise it fails with the first failure |
| Common.ConcatAll | timingsCollector/src/generators.js:34-40 | the flattened per-call lists hold exactly the elements of the calls; any failing call fails the whole with the first failure in call order |
| Common.ConcatAllUniform | timingsCollector/src/generators.js:34-40 | when every call yields n elements, element j of call k is at position n·k + j |
| Common.Filter | timingsCollector/src/generators.js:37 | the result is no longer than the input and holds exactly the input elements that satisfy the predicate |
| Common.FilterBlock | timingsCollector/src/timingsCollector.js:131-132 | a predicate that holds exactly on a contiguous block selects that block |
| Common.Find | timingsCollector/src/generators.js:85 | None iff nothing matches; otherwise the first matching element |
| Common.DecimalRoundTrip | timingsCollector/src/generators.js:70 | the decimal text of a number reads back as that number |
| Common.AllRegionsFacts | timingsCollector/src/common.js:6-7 | seven distinct regions, and eu-west-3 is not among them |
| Common.GetAndCheckEnvVar | timingsCollector/src/common.js:9-14 | succeeds iff the variable is set and non-empty, returning its value; otherwise fails with the message naming the variable |
| Paging.Paginate | timingsCollector/src/generators.js:54-66 | the result is defined iff some page ends the listing; it is then the accumulator followed by the items of every page up to the first page without a truthy NextToken |
| Paging.PaginateAccumulator | timingsCollector/src/timingsCollector.js:56-70 | draining with an accumulator prepends exactly that accumulator to the result of draining from empty |
| Paging.LastPageUnique | timingsCollector/src/timingsCollector.js:66-69 | only one page can end the listing |
| Paging.Requests | timingsCollector/src/timingsCollector.js:56-70 | the number of requests made is one more than the index of the page that ends the listing |
| Sorting.SortBy | timingsCollector/src/timingsCollector.js:133 | sorting by a total preorder gives a sorted permutation of the input |
| Sorting.SortedEnds | timingsCollector/src/timingsCollector.js:48 | the first and last elements of a sorted permutation are a least and a greatest element of the input |
| Sorting.LexLeTotalOrder | timingsCollector/src/timingsCollector.js:320 | the default string order is total and antisymmetric |
| Sorting.LexLeAppend | timingsCollector/src/timingsCollector.js:320 | strings that begin with equal-length fields compare by the first field, then by what follows |
| Sorting.Dedupe | timingsCollector/src/timingsCollector.js:318-319 | the Set round trip keeps every value exactly once and adds none |
| Sorting.Reverse | timingsCollector/src/timingsCollector.js:320 | element i of the result is element n − 1 − i of the input |
| Sorting.DistinctDescending | timingsCollector/src/timingsCollector.js:318-320 | the values of the input, each once, in strictly descending string order |
| Generators.CreateGeneratorSpec | timingsCollector/src/generators.js:22-31 | the spec carries the given runtime, memory and region, the fixed package size, "yes"/"no" for the VPC flag, and the ID built from runtime, memory and flag |
| Generators.GeneratorID | timingsCollector/src/generators.js:24 | the ID is as long as the runtime, the memory and the VPC flag together plus the two separators M and V; GeneratorIDInjective and GeneratorIDPrefix state what it identifies |
| Generators.CreateGeneratorSpecs | timingsCollector/src/generators.js:13-20 | twelve specs per region; MatrixLayout and MatrixEntry state which spec is at each position |
| Generators.MatrixLayout | timingsCollector/src/generators.js:13-20 | twelve specs per region; the spec at 12·i + 4·m + 2·v + r is the one for region i, memory m, VPC state v and runtime r |
| Generators.MatrixEntry | timingsCollector/src/generators.js:13-20 | every position of the matrix decodes to its region, memory, VPC and runtime coordinates |
| Generators.GeneratorIDPrefix | timingsCollector/src/generators.js:24 | a spec ID that is a prefix of another spec's ID followed by anything names the same runtime, memory and VPC state |
| Generators.GeneratorIDInjective | timingsCollector/src/generators.js:24 | distinct points of the matrix have distinct IDs |
| Generators.IDsDistinctWithinRegion | timingsCollector/src/generators.js:13-24 | the twelve specs of one region have pairwise distinct IDs |
| Generators.RegionAndIDIdentifySpec | timingsCollector/src/generators.js:13-31 | with distinct regions, region and ID together tell any two specs apart, while the same ID recurs one region further on |
| Generators.FindGeneratorPhysicalResourceID | timingsCollector/src/generators.js:83-86 | the physical ID of the first resource with the logical ID, or a MissingFunction failure naming that logical ID iff none has it |
| Generators.ResolveInstance | timingsCollector/src/generators.js:70-79 | replica n carries the spec's fields, the ID `<spec ID>I<n>` and the function found under that ID; it fails iff that function is missing |
| Generators.CreateGeneratorInstanceSpecsForGenerator | timingsCollector/src/generators.js:68-81 | succeeds iff all three replicas resolve, giving replicas 1, 2 and 3 in order; otherwise fails on the first replica that does not resolve |
| Generators.FunctionsInRegion | timingsCollector/src/generators.js:49-52 | exactly the Lambda-function resources of the drained listing, in listing order |
| Generators.FunctionsOfStacks | timingsCollector/src/generators.js:44 | succeeds iff every stack's listing can be drained; a stack that cannot fails the whole with PagesExhausted |
| Generators.FunctionsOfStacksExact | timingsCollector/src/generators.js:44 | the result is exactly each stack's functions, stack after stack in the order of the stack names, each in listing order |
| Generators.FunctionsOfStacksMembers | timingsCollector/src/generators.js:44 | a resource is in the result iff it is a function of one of the stacks, and every result is a Lambda function |
| Generators.ResolveSpecs | timingsCollector/src/generators.js:45-46 | succeeds iff every spec resolves; instance i is then replica i mod 3 + 1 of spec i div 3 |
| Generators.CreateGeneratorInstanceSpecsForRegion | timingsCollector/src/generators.js:43-47 | succeeds iff the region's functions can be listed and every spec resolves; three instances per spec, in spec order, all in that region |
| Generators.CreateGeneratorInstanceSpecs | timingsCollector/src/generators.js:33-41 | succeeds iff every region succeeds; the result is exactly the concatenation of each region's resolved instances, region after region, so the instances come out grouped by region |
| Generators.SpecsInMatrix | timingsCollector/src/generators.js:37 | with distinct regions, filtering the matrix by a region yields exactly that region's twelve specs |
| Generators.MatrixInstances | timingsCollector/src/generators.js:33-47 | for the full matrix of distinct regions, instance x is replica x mod 3 + 1 of spec x div 3, bound to the first function with its logical ID among the functions of that spec's region (ResolvesMatrix) |
| Generators.ReplicaIdentifiesSpec | timingsCollector/src/timingsCollector.js:132 | among the specs of the matrix, the one a replica belongs to is the only one with the replica's region whose ID is a prefix of the replica's ID |
| Traces.MaxOf | timingsCollector/src/timingsCollector.js:121 | the result is in the list and no element exceeds it |
| Traces.ProcessSegment | timingsCollector/src/timingsCollector.js:115-128 | keeps origin and start; the end is the greatest of the document's end and its subsegments' ends; the duration is end minus start |
| Traces.SubsegmentExtendsSegment | timingsCollector/src/timingsCollector.js:118-121 | example: a subsegment that ends after its document extends the segment's duration |
| Traces.To3DPs | timingsCollector/src/timingsCollector.js:107-109 | the result is a whole number of milliseconds within half a millisecond of the input (upper half included) |
| Traces.To3DPsUnique | timingsCollector/src/timingsCollector.js:107-109 | that property determines the rounding |
| Traces.FindSegment | timingsCollector/src/timingsCollector.js:87-90 | None iff no segment has the origin; otherwise the processed form of the first segment that has it |
| Traces.ProcessTrace | timingsCollector/src/timingsCollector.js:86-105 | succeeds iff both segments are present, failing on the first one missing; the timing carries the instance's fields and the trace ID; system time is the rounded difference of the whole and user segments; start time and its rendering come from the whole segment |
| Traces.RoundingDrift | timingsCollector/src/timingsCollector.js:98-100 | the rounded system and user times add up to the rounded total within one millisecond |
| Traces.RoundingDriftOccurs | timingsCollector/src/timingsCollector.js:98-100 | example: that millisecond of drift does occur |
| Traces.DecompositionExample | timingsCollector/src/timingsCollector.js:98-100 | example: outer 1.234567 s and inner 0.234567 s report 1.000 s system, 0.235 s user and 1.235 s total |
| Traces.SystemDurationNonNegative | timingsCollector/src/timingsCollector.js:98 | when the user segment is no longer than the whole, the system time is not negative |
| Traces.LatestTiming | timingsCollector/src/timingsCollector.js:48 | None (`undefined`) iff there are no timings; otherwise a timing that started no earlier than any other |
| Traces.SummaryQueries | timingsCollector/src/timingsCollector.js:51-62 | one request per page until the listing ends; each covers the hour before the first call and filters by the replica's function; the first has no token and every later one has the previous page's truthy token |
| Traces.FetchedTraces | timingsCollector/src/timingsCollector.js:40-44 | defined iff some page of the summary search ends the listing; the batch fetch is then asked for the IDs of every summary on the pages up to the one that ends it, in order |
| Traces.ProcessTraces | timingsCollector/src/timingsCollector.js:45 | one result per trace, in trace order, each the processed form of its trace |
| Traces.LatestOf | timingsCollector/src/timingsCollector.js:46-48 | fails iff some trace fails, with the failure of the first failing trace in order, as the synchronous `map` throws; otherwise None iff there are no traces, else the timing of a trace with the latest start |
| Traces.QueryXRayForTimings | timingsCollector/src/timingsCollector.js:39-49 | the latest timing of the fetched traces; its failures are a search that cannot be drained or a missing segment; a timing found carries the queried instance's configuration |
| Aggregate.Defined | timingsCollector/src/timingsCollector.js:130-132 | succeeds iff no timing is `undefined`, keeping all of them in order; otherwise fails with MissingTiming |
| Aggregate.Matching | timingsCollector/src/timingsCollector.js:131-132 | exactly the timings in the generator's region whose ID begins with the generator's ID |
| Aggregate.TimingsForGenerator | timingsCollector/src/timingsCollector.js:131-133 | the matching timings, permuted into ascending order of system time |
| Aggregate.MergeInstanceTimings | timingsCollector/src/timingsCollector.js:130-143 | fails on an `undefined` timing, and with TooFewTimings when fewer than three match; otherwise it is a matching timing under the generator's ID, the count of matching timings, a minimum that is the least matching system time and a maximum that is a matching one, with min ≤ row ≤ max; with exactly three, {min, row, max} are the three system times |
| Aggregate.MergeExample | timingsCollector/src/timingsCollector.js:130-143 | example: system times 500, 200 and 800 ms merge to the 500 ms timing with bounds 200 and 800 |
| Aggregate.CsvHeaderFacts | timingsCollector/src/timingsCollector.js:189-192 | constant fact: fifteen distinct column names |
| Aggregate.CsvRow | timingsCollector/src/timingsCollector.js:194-210 | cell j of a row is the row's property named by header column j |
| Aggregate.HeaderRow | timingsCollector/src/timingsCollector.js:189-192 | the header row is the column names in order |
| Aggregate.CreateCsvRows | timingsCollector/src/timingsCollector.js:188-212 | the header followed by one row per merged timing, in order, each cell the property its column names |
| Aggregate.CsvRoundTrip | timingsCollector/src/timingsCollector.js:194-210 | a row loses nothing: reading its cells back gives the merged timing |
| Aggregate.CsvTableRoundTrip | timingsCollector/src/timingsCollector.js:188-212 | every data row of the table reads back as its merged timing |
| Pipeline.QueryAll | timingsCollector/src/timingsCollector.js:31 | one query per instance, in instance order |
| Pipeline.MergeAll | timingsCollector/src/timingsCollector.js:32 | one merge per spec, in spec order |
| Pipeline.Instances | timingsCollector/src/timingsCollector.js:29-30 | succeeds iff every region's functions can be listed and all its specs resolve; for distinct regions the result is the whole matrix resolved, instance x being replica x mod 3 + 1 of spec x div 3 bound to its function in its region |
| Pipeline.Query | timingsCollector/src/timingsCollector.js:31 | the query of one instance against the clients of its region; it fails only with PagesExhausted or a missing segment, and a timing found carries the instance's configuration |
| Pipeline.MergeRows | timingsCollector/src/timingsCollector.js:32 | succeeds iff every spec's merge succeeds, and otherwise fails with the failure of the first failing merge in spec order, as the synchronous `map` throws; row k is spec k's merge, with its ID and region and at least three timings |
| Pipeline.CollectTimings | timingsCollector/src/timingsCollector.js:28-32 | a failing resolution ends the run with its failure, then the first failing query, then a failing merge; otherwise one row per spec (twelve per region) with the spec's ID and region |
| Pipeline.FailedQueryEndsRun | timingsCollector/src/timingsCollector.js:31 | when some query fails, the run fails with the first query failure in instance order |
| Pipeline.CompleteRun | timingsCollector/src/timingsCollector.js:28-32 | with distinct regions, every replica resolved and every query finding a trace, the run succeeds; the row of spec k is merged from exactly the latest timings of instances 3k, 3k+1 and 3k+2, so three timings are captured and {min, row, max} are their system times |
| Pipeline.OwnReplicas | timingsCollector/src/timingsCollector.js:131-132 | the timings matching spec k are exactly those of its own three replicas |
| Pipeline.NoTraceFailsRun | timingsCollector/src/timingsCollector.js:48 | a replica with no trace in the last hour leaves `undefined` among the timings, and the run then fails in the merge |
| Partitions.Pad2 | timingsCollector/src/timingsCollector.js:147 | `("0"+n).slice(-2)` is always the tens and the units digit of n |
| Partitions.Pad2Value | timingsCollector/src/timingsCollector.js:147 | the padded text is two digits that read back as n mod 100 |
| Partitions.Pad2Order | timingsCollector/src/timingsCollector.js:147 | below 100, padded numbers compare as strings as they compare as numbers, and are equal iff the numbers are |
| Partitions.TodaysDateYYYYMMDD | timingsCollector/src/timingsCollector.js:145-148 | for a four-digit year, ten characters with dashes at positions 4 and 7 |
| Partitions.DateRoundTrip | timingsCollector/src/timingsCollector.js:145-148 | the date splits back into the year, the month counted from 1 and the day of the month |
| Partitions.HourString | timingsCollector/src/timingsCollector.js:155 | two digits that read back as the hour |
| Partitions.TimestampedKey | timingsCollector/src/timingsCollector.js:153-155 | the key begins with the key prefix and, for a ten-character date, holds the date at characters 50 to 60 and the padded hour at 66 to 68 |
| Partitions.JsSubstring | timingsCollector/src/timingsCollector.js:319 | `substring` within bounds is the slice; otherwise the ends are clamped to the length and swapped when reversed: `s[start..]`, `s[end..start]`, `s[end..]` or empty |
| Partitions.KeyRoundTrip | timingsCollector/src/timingsCollector.js:153-155 | with a ten-character date, the key's characters 50 to 60 are the date and 66 to 68 are the padded hour, which are the offsets the index reads |
| Partitions.FindDaysWithContent | timingsCollector/src/timingsCollector.js:309-323 | exactly the day fields of the listed keys, each once, in strictly descending string order |
| Partitions.FindHoursWithContent | timingsCollector/src/timingsCollector.js:325-339 | exactly the hour fields of the listed keys, each once, in strictly descending string order |
| Partitions.DecimalOrder | timingsCollector/src/timingsCollector.js:147 | numbers with the same number of digits compare as strings as they compare as numbers |
| Partitions.DateOrder | timingsCollector/src/timingsCollector.js:318-320 | for four-digit years, the string order of the dates is the calendar order, so the descending day list starts with the newest day |

## Left out

- Publishing is not modelled: the S3 writes, the JSON and HTML renderings, `createHTML`, the index pages and `updateIndexes`. The keys the reports are written under are modelled, as TimestampedKey and KeyRoundTrip.
- The CSV serialisation by csv-stringify (quoting, separators, line ends) is not modelled. `createCSVString` is modelled up to the header and data rows it hands to the writer.
- The Lambda handler's wiring of three environment variables into `collectTimings` is not modelled. GetAndCheckEnvVar models the check itself, and CollectTimings takes the regions and stack names as parameters.
- The clock is a parameter: the year, month index, day, hour and "now" are inputs. `Date#toString` is an uninterpreted function.
- Segment documents are given already decoded. `JSON.parse` is not modelled.
- Times are integers in microseconds, not floating-point seconds. To3DPs rounds exactly, half up, as `Math.round` does on an exact product; floating-point error in `number * 1000` is not modelled.
- Promise.all runs its calls concurrently and rejects with whichever failure comes first in time. The model takes failures in index order, which is one of the possible outcomes.
- No retries: the source makes each tracing-service call once and has no backoff.
- Paginate: a given page sequence is finite. When it runs out while a NextToken is still truthy, the source would keep asking. The model reports PagesExhausted instead.
- FindDaysWithContent and FindHoursWithContent read only the first page of the bucket listing, as the source does. A listing of more than 1000 keys is truncated there.
- FindHoursWithContent does not model the day prefix of the listing request. The keys under that prefix are given.
- SortBy is a stable insertion sort, while Node 8's `sort` is not stable for longer arrays. The contracts that use it (LatestTiming, TimingsForGenerator, MergeInstanceTimings) say only what any correct sort gives, so ties may go either way.
- MergeInstanceTimings: with more than three matching timings, the source reports index 1 as the row and index 2 as the maximum. The contract states the minimum exactly and only bounds the row and the maximum by matching timings. CompleteRun shows that a complete run always has exactly three.
- MergeInstanceTimings: with fewer than three matching timings, the source throws a TypeError from reading a missing array element. The model fails with TooFewTimings.
- DateOrder and DateRoundTrip cover years 1000 to 9999 only, where the year has four digits.
- A rejected AWS SDK call is not modelled. In the source, a failed `listStackResources` (timingsCollector/src/generators.js:55), `getTraceSummaries` (timingsCollector/src/timingsCollector.js:57) or `batchGetTraces` (timingsCollector/src/timingsCollector.js:42) rejects its promise and ends the run through `Promise.all`. The service answers are total parameters here, so they cannot fail.
- Regions outside AllRegions are not rejected. The source builds its CloudFormation and X-Ray clients only for `allRegions`, so any other region makes `cloudformation[region]` or `xray[region]` undefined and the call throws a TypeError. CollectTimings accepts any region string and can succeed for it.
- A subsegment without `end_time` is not representable. In the source, `Math.max` then gives NaN and the segment's end and duration are NaN without any failure. In the model every subsegment has an integer end time.
- PagesExhausted is a failure of the model, not of the source. It stands for a listing that never ends, as the Paginate line above says.
- Strings are Dafny strings, which are sequences of Unicode scalar values. `substring` and the default `sort()` work on UTF-16 code units instead. The two agree on the ASCII keys and IDs the program builds.
- The code of the generator functions themselves (the Java and Node handlers that are being timed) is not part of this model.
