/** Merging the three instance timings of a generator into one report row
    (`mergeInstanceTimings`) and the row layout of the CSV report (`createCSVString`), both in
    timingsCollector/src/timingsCollector.js. */
module Aggregate {
  import opened Common
  import opened Sorting
  import opened Generators
  import opened Traces

  /** A report row: the median instance's timing under the generator's own ID, with the
      system durations of the fastest and slowest instance and the number of timings found. */
  datatype MergedTiming = MergedTiming(
    generatorID: string,
    runtime: string,
    memory: string,
    packageSize: string,
    region: string,
    vpc: string,
    systemDuration: int,
    userDuration: int,
    totalDuration: int,
    traceId: string,
    startTime: int,
    startFullDateTime: string,
    minOtherSystemDurations: int,
    maxOtherSystemDurations: int,
    timingsCaptured: nat)

  /** `{...median, generatorID, minOtherSystemDurations, maxOtherSystemDurations, timingsCaptured}` */
  function Merged(median: TraceTiming, generatorID: string, min: int, max: int, count: nat): MergedTiming
  {
    MergedTiming(generatorID, median.runtime, median.memory, median.packageSize, median.region, median.vpc,
                 median.systemDuration, median.userDuration, median.totalDuration, median.traceId,
                 median.startTime, median.startFullDateTime, min, max, count)
  }

  // ---------------------------------------------------------------------------------------
  // mergeInstanceTimings

  /** A timing belongs to a generator when it was taken in the generator's region for an
      instance whose ID extends the generator's ID. */
  predicate MatchesGenerator(generator: GeneratorSpec, t: TraceTiming)
  {
    t.region == generator.region && generator.generatorID <= t.generatorID
  }

  /** The comparator `(a, b) => a.systemDuration - b.systemDuration` as an order. */
  predicate SystemNoGreater(a: TraceTiming, b: TraceTiming)
  {
    a.systemDuration <= b.systemDuration
  }

  lemma SystemOrder()
    ensures TotalPreorder(SystemNoGreater)
  {
  }

  /** The filter reads `timing.region` of every entry, so a single `undefined` among the
      timings aborts the merge. */
  function Defined(timings: seq<Option<TraceTiming>>): (r: Result<seq<TraceTiming>>)
    ensures r.Ok? <==> forall k :: 0 <= k < |timings| ==> timings[k].Some?
    ensures r.Ok? ==> |r.value| == |timings| && forall k :: 0 <= k < |timings| ==> r.value[k] == timings[k].value
    ensures r.Err? ==> r.error == MissingTiming
  {
    if forall k :: 0 <= k < |timings| ==> timings[k].Some? then
      var ts := seq(|timings|, k requires 0 <= k < |timings| => timings[k].value);
      assert |ts| == |timings| && forall k :: 0 <= k < |timings| ==> ts[k] == timings[k].value;
      Ok(ts)
    else
      Err(MissingTiming)
  }

  /** The timings of one generator, in the order they were collected. */
  function Matching(generator: GeneratorSpec, timings: seq<TraceTiming>): (r: seq<TraceTiming>)
    ensures forall t :: t in r <==> t in timings && MatchesGenerator(generator, t)
  {
    Filter(timings, (t: TraceTiming) => MatchesGenerator(generator, t))
  }

  /** The timings of one generator sorted by system duration, fastest first. */
  function TimingsForGenerator(generator: GeneratorSpec, timings: seq<TraceTiming>): (r: seq<TraceTiming>)
    ensures multiset(r) == multiset(Matching(generator, timings))
    ensures |r| == |Matching(generator, timings)|
    ensures SortedBy(r, SystemNoGreater)
  {
    SystemOrder();
    SortBy(Matching(generator, timings), SystemNoGreater)
  }

  /** The system duration of each timing, in order. */
  function SystemDurations(ts: seq<TraceTiming>): (ds: seq<int>)
    ensures |ds| == |ts|
    ensures forall k :: 0 <= k < |ts| ==> ds[k] == ts[k].systemDuration
  {
    if ts == [] then [] else [ts[0].systemDuration] + SystemDurations(ts[1..])
  }

  /** mergeInstanceTimings: the report row of one generator. Indices 0, 1 and 2 of the sorted
      timings are read unguarded, so fewer than three matching timings are a failure; with
      exactly three, the row is the median one and the other two give the bounds. */
  function MergeInstanceTimings(generator: GeneratorSpec, allTimings: seq<Option<TraceTiming>>): (r: Result<MergedTiming>)
    ensures r.Ok? <==> Defined(allTimings).Ok? && |Matching(generator, Defined(allTimings).value)| >= 3
    ensures Defined(allTimings).Err? ==> r == Err(MissingTiming)
    ensures (Defined(allTimings).Ok? && |Matching(generator, Defined(allTimings).value)| < 3 ==>
               r == Err(TooFewTimings(generator.generatorID, |Matching(generator, Defined(allTimings).value)|)))
    ensures r.Ok? ==> r.value.generatorID == generator.generatorID && r.value.region == generator.region
    ensures r.Ok? ==> r.value.timingsCaptured == |Matching(generator, Defined(allTimings).value)|
    ensures r.Ok? ==> r.value.minOtherSystemDurations <= r.value.systemDuration <= r.value.maxOtherSystemDurations
    ensures r.Ok? ==> exists t :: (t in Matching(generator, Defined(allTimings).value)
                                  && r.value == Merged(t, generator.generatorID, r.value.minOtherSystemDurations,
                                                       r.value.maxOtherSystemDurations, r.value.timingsCaptured))
    ensures r.Ok? ==> forall t :: t in Matching(generator, Defined(allTimings).value) ==> r.value.minOtherSystemDurations <= t.systemDuration
    ensures r.Ok? ==> exists t :: t in Matching(generator, Defined(allTimings).value) && t.systemDuration == r.value.minOtherSystemDurations
    ensures r.Ok? ==> exists t :: t in Matching(generator, Defined(allTimings).value) && t.systemDuration == r.value.maxOtherSystemDurations
    ensures r.Ok? && r.value.timingsCaptured == 3 ==>
              multiset{r.value.minOtherSystemDurations, r.value.systemDuration, r.value.maxOtherSystemDurations}
              == multiset(SystemDurations(Matching(generator, Defined(allTimings).value)))
  {
    match Defined(allTimings)
    case Err(e) => Err(e)
    case Ok(timings) =>
      var sorted := TimingsForGenerator(generator, timings);
      if |sorted| < 3 then Err(TooFewTimings(generator.generatorID, |sorted|))
      else
        var m := Merged(sorted[1], generator.generatorID, sorted[0].systemDuration, sorted[2].systemDuration, |sorted|);
        MedianOfSorted(Matching(generator, timings), sorted);
        assert sorted[1] in Matching(generator, timings);
        Ok(m)
  }

  /** What the three indices of a sorted rearrangement hold: index 0 a least element, all
      three from the input, and with exactly three the least, middle and greatest durations. */
  lemma MedianOfSorted(matches: seq<TraceTiming>, sorted: seq<TraceTiming>)
    requires multiset(sorted) == multiset(matches) && SortedBy(sorted, SystemNoGreater) && |sorted| >= 3
    ensures sorted[0] in matches && sorted[1] in matches && sorted[2] in matches
    ensures forall t :: t in matches ==> sorted[0].systemDuration <= t.systemDuration
    ensures |sorted| == |matches|
    ensures |sorted| == 3 ==> forall t :: t in matches ==> t.systemDuration <= sorted[2].systemDuration
    ensures |sorted| == 3 ==>
              multiset{sorted[0].systemDuration, sorted[1].systemDuration, sorted[2].systemDuration}
              == multiset(SystemDurations(matches))
  {
    SortedMembers(matches, sorted);
    if |sorted| == 3 {
      DurationsPermutation(sorted, matches);
      ThreeDurations(sorted);
    }
  }

  lemma SortedMembers(matches: seq<TraceTiming>, sorted: seq<TraceTiming>)
    requires multiset(sorted) == multiset(matches) && SortedBy(sorted, SystemNoGreater) && |sorted| >= 3
    ensures sorted[0] in matches && sorted[1] in matches && sorted[2] in matches
    ensures forall t :: t in matches ==> sorted[0].systemDuration <= t.systemDuration
    ensures forall t :: t in matches ==> t.systemDuration <= sorted[|sorted| - 1].systemDuration
    ensures |sorted| == |matches|
  {
    assert |matches| == |multiset(matches)| == |multiset(sorted)| == |sorted|;
    SortedEnds(matches, sorted, SystemNoGreater);
    assert sorted[1] in multiset(sorted) && sorted[2] in multiset(sorted);
  }

  lemma ThreeDurations(ts: seq<TraceTiming>)
    requires |ts| == 3
    ensures multiset(SystemDurations(ts)) == multiset{ts[0].systemDuration, ts[1].systemDuration, ts[2].systemDuration}
  {
    var ds := SystemDurations(ts);
    assert ds == [ds[0], ds[1], ds[2]];
  }

  /** Rearranging timings rearranges their system durations. */
  lemma {:induction false} DurationsPermutation(a: seq<TraceTiming>, b: seq<TraceTiming>)
    requires multiset(a) == multiset(b)
    ensures multiset(SystemDurations(a)) == multiset(SystemDurations(b))
    decreases |a|
  {
    if a == [] {
      assert |b| == |multiset(b)| == 0;
    } else {
      assert a[0] in multiset(b);
      var i :| 0 <= i < |b| && b[i] == a[0];
      RemoveMatching(a, b, i);
      DurationsPermutation(a[1..], b[..i] + b[i + 1..]);
      DurationsPutBack(a, b, i);
    }
  }

  /** Putting the same timing back into both sides keeps their durations rearrangements of
      each other. */
  lemma DurationsPutBack(a: seq<TraceTiming>, b: seq<TraceTiming>, i: nat)
    requires |a| > 0 && i < |b| && b[i] == a[0]
    requires multiset(SystemDurations(a[1..])) == multiset(SystemDurations(b[..i] + b[i + 1..]))
    ensures multiset(SystemDurations(a)) == multiset(SystemDurations(b))
  {
    assert b == b[..i] + [b[i]] + b[i + 1..];
    DurationsAppend(b[..i] + [b[i]], b[i + 1..]);
    DurationsAppend(b[..i], [b[i]]);
    DurationsAppend(b[..i], b[i + 1..]);
  }

  /** Taking the same element out of two rearrangements of each other leaves two
      rearrangements of each other. */
  lemma RemoveMatching<T>(a: seq<T>, b: seq<T>, i: nat)
    requires multiset(a) == multiset(b) && |a| > 0 && i < |b| && b[i] == a[0]
    ensures multiset(a[1..]) == multiset(b[..i] + b[i + 1..])
  {
    MultisetRemove(a, 0);
    MultisetRemove(b, i);
    assert a[..0] + a[1..] == a[1..];
    assert multiset(a[1..]) == multiset(a) - multiset{a[0]};
    assert multiset(b[..i] + b[i + 1..]) == multiset(b) - multiset{b[i]};
  }

  /** Taking out the element at `i` takes one copy of it out of the multiset. */
  lemma MultisetRemove<T>(s: seq<T>, i: nat)
    requires i < |s|
    ensures multiset(s) == multiset(s[..i] + s[i + 1..]) + multiset{s[i]}
  {
    assert s == s[..i] + [s[i]] + s[i + 1..];
  }

  lemma DurationsAppend(a: seq<TraceTiming>, b: seq<TraceTiming>)
    ensures SystemDurations(a + b) == SystemDurations(a) + SystemDurations(b)
  {
    assert forall k :: 0 <= k < |a| + |b| ==> (a + b)[k] == if k < |a| then a[k] else b[k - |a|];
  }

  /** Three timings for a generator with system durations 0.5 s, 0.2 s and 0.8 s give the
      0.5 s one as the row, 0.2 s and 0.8 s as the bounds and three timings captured. */
  lemma MergeExample(generator: GeneratorSpec, all: seq<Option<TraceTiming>>)
    requires |all| == 3 && all[0].Some? && all[1].Some? && all[2].Some?
    requires forall k :: 0 <= k < 3 ==> MatchesGenerator(generator, all[k].value)
    requires all[0].value.systemDuration == 500000 && all[1].value.systemDuration == 200000
    requires all[2].value.systemDuration == 800000
    ensures MergeInstanceTimings(generator, all) == Ok(Merged(all[0].value, generator.generatorID, 200000, 800000, 3))
  {
    var ts := ExampleTimings(generator, all);
    var r := MergeInstanceTimings(generator, all).value;
    SortedThree(r.minOtherSystemDurations, r.systemDuration, r.maxOtherSystemDurations);
    var t :| t in ts && r == Merged(t, generator.generatorID, r.minOtherSystemDurations, r.maxOtherSystemDurations, 3);
    OnlyMiddle(ts, t);
  }

  /** In the example every timing is defined and matches. */
  lemma ExampleTimings(generator: GeneratorSpec, all: seq<Option<TraceTiming>>) returns (ts: seq<TraceTiming>)
    requires |all| == 3 && all[0].Some? && all[1].Some? && all[2].Some?
    requires forall k :: 0 <= k < 3 ==> MatchesGenerator(generator, all[k].value)
    requires all[0].value.systemDuration == 500000 && all[1].value.systemDuration == 200000
    requires all[2].value.systemDuration == 800000
    ensures Defined(all) == Ok(ts) && Matching(generator, ts) == ts && |ts| == 3
    ensures ts[0] == all[0].value && ts[1].systemDuration == 200000 && ts[2].systemDuration == 800000
    ensures multiset(SystemDurations(Matching(generator, ts))) == multiset{500000, 200000, 800000}
  {
    ts := Defined(all).value;
    FilterAll(ts, (t: TraceTiming) => MatchesGenerator(generator, t));
    ThreeDurations(ts);
  }

  lemma OnlyMiddle(ts: seq<TraceTiming>, t: TraceTiming)
    requires |ts| == 3 && t in ts && t.systemDuration == 500000
    requires ts[1].systemDuration == 200000 && ts[2].systemDuration == 800000
    ensures t == ts[0]
  {
    var k :| 0 <= k < 3 && ts[k] == t;
  }

  /** The only ascending arrangement of 0.5 s, 0.2 s and 0.8 s. */
  lemma SortedThree(x: int, y: int, z: int)
    requires multiset{x, y, z} == multiset{500000, 200000, 800000} && x <= y <= z
    ensures x == 200000 && y == 500000 && z == 800000
  {
    assert x in multiset{500000, 200000, 800000} && y in multiset{500000, 200000, 800000} && z in multiset{500000, 200000, 800000};
    assert 200000 in multiset{x, y, z} && 800000 in multiset{x, y, z};
  }

  // ---------------------------------------------------------------------------------------
  // createCSVString, up to the rows handed to the CSV writer

  /** A CSV cell: the writer is given strings and numbers. */
  datatype Field = Text(text: string) | Number(value: int)

  const CsvHeader: seq<string> := ["region", "runtime", "memory", "packageSize", "vpc", "generatorID",
                                   "systemDuration", "userDuration", "totalDuration", "traceId", "startTime",
                                   "startFullDateTime", "minOtherSystemDurations", "maxOtherSystemDurations",
                                   "timingsCaptured"]

  lemma CsvHeaderFacts()
    ensures |CsvHeader| == 15
    ensures forall i, j :: 0 <= i < j < |CsvHeader| ==> CsvHeader[i] != CsvHeader[j]
  {
  }

  /** Property access by name on a report row; None (`undefined`) for a name that is not a
      property of it. */
  function Column(m: MergedTiming, name: string): Option<Field>
  {
    match name
    case "region" => Some(Text(m.region))
    case "runtime" => Some(Text(m.runtime))
    case "memory" => Some(Text(m.memory))
    case "packageSize" => Some(Text(m.packageSize))
    case "vpc" => Some(Text(m.vpc))
    case "generatorID" => Some(Text(m.generatorID))
    case "systemDuration" => Some(Number(m.systemDuration))
    case "userDuration" => Some(Number(m.userDuration))
    case "totalDuration" => Some(Number(m.totalDuration))
    case "traceId" => Some(Text(m.traceId))
    case "startTime" => Some(Number(m.startTime))
    case "startFullDateTime" => Some(Text(m.startFullDateTime))
    case "minOtherSystemDurations" => Some(Number(m.minOtherSystemDurations))
    case "maxOtherSystemDurations" => Some(Number(m.maxOtherSystemDurations))
    case "timingsCaptured" => Some(Number(m.timingsCaptured))
    case _ => None
  }

  /** The data row of one report row: its fields in the order of the header. */
  function CsvRow(m: MergedTiming): (row: seq<Field>)
    ensures |row| == |CsvHeader|
    ensures forall j :: 0 <= j < |CsvHeader| ==> Column(m, CsvHeader[j]) == Some(row[j])
  {
    [Text(m.region), Text(m.runtime), Text(m.memory), Text(m.packageSize), Text(m.vpc), Text(m.generatorID),
     Number(m.systemDuration), Number(m.userDuration), Number(m.totalDuration), Text(m.traceId),
     Number(m.startTime), Text(m.startFullDateTime), Number(m.minOtherSystemDurations),
     Number(m.maxOtherSystemDurations), Number(m.timingsCaptured)]
  }

  function HeaderRow(): (row: seq<Field>)
    ensures |row| == |CsvHeader|
    ensures forall j :: 0 <= j < |CsvHeader| ==> row[j] == Text(CsvHeader[j])
  {
    var row := seq(|CsvHeader|, j requires 0 <= j < |CsvHeader| => Text(CsvHeader[j]));
    assert |row| == |CsvHeader| && forall j :: 0 <= j < |CsvHeader| ==> row[j] == Text(CsvHeader[j]);
    row
  }

  /** `[headerRow].concat(dataRows)`: the header, then one row per report row in input
      order, each cell the report row's property named by its column's header. */
  function CreateCsvRows(rows: seq<MergedTiming>): (table: seq<seq<Field>>)
    ensures |table| == 1 + |rows|
    ensures table[0] == HeaderRow()
    ensures forall i :: 1 <= i < |table| ==> |table[i]| == |CsvHeader|
    ensures forall i, j :: 1 <= i < |table| && 0 <= j < |CsvHeader| ==> Column(rows[i - 1], CsvHeader[j]) == Some(table[i][j])
  {
    var data := seq(|rows|, i requires 0 <= i < |rows| => CsvRow(rows[i]));
    assert |data| == |rows| && forall i :: 0 <= i < |rows| ==> data[i] == CsvRow(rows[i]);
    [HeaderRow()] + data
  }

  /** Reading a data row back by position: the inverse of CsvRow for rows of the right shape. */
  function ParseCsvRow(row: seq<Field>): (r: Option<MergedTiming>)
    ensures r.Some? ==> |row| == |CsvHeader|
  {
    if |row| != 15 then None
    else if !(row[0].Text? && row[1].Text? && row[2].Text? && row[3].Text? && row[4].Text? && row[5].Text?
              && row[6].Number? && row[7].Number? && row[8].Number? && row[9].Text? && row[10].Number?
              && row[11].Text? && row[12].Number? && row[13].Number? && row[14].Number?) then None
    else if row[14].value < 0 then None
    else Some(MergedTiming(row[5].text, row[1].text, row[2].text, row[3].text, row[0].text, row[4].text,
                           row[6].value, row[7].value, row[8].value, row[9].text, row[10].value, row[11].text,
                           row[12].value, row[13].value, row[14].value))
  }

  /** Writing a report row and reading it back gives the same fifteen fields. */
  lemma CsvRoundTrip(m: MergedTiming)
    ensures ParseCsvRow(CsvRow(m)) == Some(m)
  {
  }

  /** Every data row of the table reads back as the report row it was written from. */
  lemma CsvTableRoundTrip(rows: seq<MergedTiming>)
    ensures forall i :: 0 <= i < |rows| ==> ParseCsvRow(CreateCsvRows(rows)[i + 1]) == Some(rows[i])
  {
    var table := CreateCsvRows(rows);
    forall i | 0 <= i < |rows| ensures ParseCsvRow(table[i + 1]) == Some(rows[i]) {
      CsvRowOfTable(rows, i);
      CsvRoundTrip(rows[i]);
    }
  }

  lemma CsvRowOfTable(rows: seq<MergedTiming>, i: nat)
    requires i < |rows|
    ensures CreateCsvRows(rows)[i + 1] == CsvRow(rows[i])
  {
    var table := CreateCsvRows(rows);
    var row := CsvRow(rows[i]);
    forall j | 0 <= j < |row| ensures table[i + 1][j] == row[j] {
      assert Column(rows[i], CsvHeader[j]) == Some(row[j]);
    }
  }
}
