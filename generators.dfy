/** The benchmark matrix and its resolution to deployed functions
    (timingsCollector/src/generators.js).

    A generator spec is one point of the matrix region x memory x VPC x runtime; a generator
    instance is one of the three deployed replicas of a spec, bound to the physical name of
    its function. The CloudFormation listing of a stack's resources is given, per stack and
    region, as the sequence of pages the service answers with. */
module Generators {
  import opened Common
  import opened Paging

  const MemorySizes: seq<string> := ["256", "1024", "3008"]
  const VpcStates: seq<bool> := [true, false]
  const Runtimes: seq<string> := ["NodeJS8", "Java8"]

  /** |MemorySizes| * |VpcStates| * |Runtimes| */
  const SpecsPerRegion: nat := 12

  const PackageSize: string := "small"

  /** Every spec is deployed as three replicas, numbered 1 to 3. */
  const InstanceIDs: seq<nat> := [1, 2, 3]

  const LambdaFunctionType: string := "AWS::Lambda::Function"

  datatype GeneratorSpec = GeneratorSpec(
    generatorID: string,
    runtime: string,
    memory: string,
    packageSize: string,
    region: string,
    vpc: string)

  datatype StackResource = StackResource(
    logicalResourceId: string,
    physicalResourceId: string,
    resourceType: string)

  datatype InstanceSpec = InstanceSpec(
    generatorID: string,
    runtime: string,
    memory: string,
    packageSize: string,
    region: string,
    vpc: string,
    generatorFunction: string,
    instanceID: nat)

  /** The text of the VPC flag inside an ID. */
  function VpcFlag(vpc: bool): string
  {
    if vpc then "True" else "False"
  }

  /** `${runtime}M${memory}V${vpc ? "True" : "False"}` */
  function GeneratorID(runtime: string, memory: string, vpc: bool): (id: string)
    ensures |id| == |runtime| + |memory| + 2 + |VpcFlag(vpc)|
  {
    runtime + "M" + memory + "V" + VpcFlag(vpc)
  }

  /** A spec's ID is derived from its other fields, its package size is fixed and its VPC
      field is one of two labels. */
  ghost predicate WellFormedSpec(s: GeneratorSpec)
  {
    && (s.vpc == "yes" || s.vpc == "no")
    && s.packageSize == PackageSize
    && s.generatorID == GeneratorID(s.runtime, s.memory, s.vpc == "yes")
  }

  function CreateGeneratorSpec(runtime: string, memory: string, vpc: bool, region: string): (s: GeneratorSpec)
    ensures WellFormedSpec(s)
    ensures s.vpc == "yes" <==> vpc
    ensures s.runtime == runtime && s.memory == memory && s.region == region
  {
    GeneratorSpec(GeneratorID(runtime, memory, vpc), runtime, memory, PackageSize, region, if vpc then "yes" else "no")
  }

  // ---------------------------------------------------------------------------------------
  // createGeneratorSpecs: nested maps over the dimensions, flattened level by level

  function SpecsForVpc(memory: string, vpc: bool, region: string): seq<GeneratorSpec>
  {
    seq(|Runtimes|, r requires 0 <= r < |Runtimes| => CreateGeneratorSpec(Runtimes[r], memory, vpc, region))
  }

  function SpecsForMemory(memory: string, region: string): seq<GeneratorSpec>
  {
    Flatten(seq(|VpcStates|, v requires 0 <= v < |VpcStates| => SpecsForVpc(memory, VpcStates[v], region)))
  }

  function SpecsForRegion(region: string): seq<GeneratorSpec>
  {
    Flatten(seq(|MemorySizes|, m requires 0 <= m < |MemorySizes| => SpecsForMemory(MemorySizes[m], region)))
  }

  /** `createGeneratorSpecs(regions)`: twelve specs per region, laid out as MatrixLayout
      states. */
  function CreateGeneratorSpecs(regions: seq<string>): (specs: seq<GeneratorSpec>)
    ensures |specs| == 12 * |regions|
  {
    var xss := seq(|regions|, i requires 0 <= i < |regions| => SpecsForRegion(regions[i]));
    assert forall k :: 0 <= k < |xss| ==> |xss[k]| == 12 by {
      forall k | 0 <= k < |xss| ensures |xss[k]| == 12 {
        SpecsForRegionAt(regions[k], 0, 0, 0);
      }
    }
    FlattenUniformLength(xss, 12);
    Flatten(xss)
  }

  lemma SpecsForMemoryAt(memory: string, region: string, v: nat, r: nat)
    requires v < |VpcStates| && r < |Runtimes|
    ensures |SpecsForMemory(memory, region)| == 4
    ensures SpecsForMemory(memory, region)[2 * v + r] == CreateGeneratorSpec(Runtimes[r], memory, VpcStates[v], region)
  {
    var xss := seq(|VpcStates|, v requires 0 <= v < |VpcStates| => SpecsForVpc(memory, VpcStates[v], region));
    FlattenUniform(xss, 2, v, r);
  }

  lemma SpecsForRegionAt(region: string, m: nat, v: nat, r: nat)
    requires m < |MemorySizes| && v < |VpcStates| && r < |Runtimes|
    ensures |SpecsForRegion(region)| == SpecsPerRegion
    ensures SpecsForRegion(region)[4 * m + 2 * v + r] == CreateGeneratorSpec(Runtimes[r], MemorySizes[m], VpcStates[v], region)
  {
    var xss := seq(|MemorySizes|, m requires 0 <= m < |MemorySizes| => SpecsForMemory(MemorySizes[m], region));
    forall k | 0 <= k < |xss| ensures |xss[k]| == 4 {
      SpecsForMemoryAt(MemorySizes[k], region, 0, 0);
    }
    SpecsForMemoryAt(MemorySizes[m], region, v, r);
    FlattenUniform(xss, 4, m, 2 * v + r);
  }

  /** The matrix holds twelve specs per region, region-major, then memory in the order 256,
      1024, 3008, then VPC attached before not, then NodeJS8 before Java8. */
  lemma MatrixLayout(regions: seq<string>, i: nat, m: nat, v: nat, r: nat)
    requires i < |regions| && m < |MemorySizes| && v < |VpcStates| && r < |Runtimes|
    ensures |CreateGeneratorSpecs(regions)| == SpecsPerRegion * |regions|
    ensures CreateGeneratorSpecs(regions)[12 * i + 4 * m + 2 * v + r]
         == CreateGeneratorSpec(Runtimes[r], MemorySizes[m], VpcStates[v], regions[i])
  {
    SpecsForRegionAt(regions[i], m, v, r);
    MatrixBlock(regions, i, 4 * m + 2 * v + r);
  }

  /** Closed form of every entry of the matrix. */
  lemma MatrixEntry(regions: seq<string>, k: nat)
    requires k < |CreateGeneratorSpecs(regions)|
    ensures |CreateGeneratorSpecs(regions)| == SpecsPerRegion * |regions|
    ensures CreateGeneratorSpecs(regions)[k]
         == CreateGeneratorSpec(Runtimes[k % 2], MemorySizes[(k % 12) / 4], VpcStates[(k % 4) / 2], regions[k / 12])
  {
    DivModBelow(k, 12, |regions|);
    MatrixPosition(k);
    MatrixLayout(regions, k / 12, (k % 12) / 4, (k % 4) / 2, k % 2);
  }

  // ---------------------------------------------------------------------------------------
  // What the IDs identify

  /** The runtimes are non-empty and differ in their first character. */
  lemma RuntimeHeads()
    ensures forall x :: x in Runtimes ==> |x| > 0
    ensures forall x, y :: x in Runtimes && y in Runtimes && x[0] == y[0] ==> x == y
  {
    assert "NodeJS8"[0] == 'N' && "Java8"[0] == 'J';
  }

  /** The memory sizes are non-empty and differ in their first character. */
  lemma MemoryHeads()
    ensures forall x :: x in MemorySizes ==> |x| > 0
    ensures forall x, y :: x in MemorySizes && y in MemorySizes && x[0] == y[0] ==> x == y
  {
    assert "256"[0] == '2' && "1024"[0] == '1' && "3008"[0] == '3';
  }

  /** The two flag texts differ in their first character. */
  lemma FlagHeads(v1: bool, v2: bool)
    ensures |VpcFlag(v1)| > 0
    ensures VpcFlag(v1)[0] == VpcFlag(v2)[0] ==> v1 == v2
  {
    assert "True"[0] == 'T' && "False"[0] == 'F';
  }

  /** A prefix shares its first character with the sequence it begins. */
  lemma PrefixHead(a: string, b: string)
    requires a <= b && |a| > 0
    ensures a[0] == b[0]
  {
  }

  /** A common front can be dropped from both sides of a prefix relation. */
  lemma PrefixDropCommon(x: string, y1: string, y2: string)
    requires x + y1 <= x + y2
    ensures y1 <= y2
  {
    assert forall i :: 0 <= i < |y1| ==> y1[i] == (x + y1)[|x| + i];
  }

  /** Reading an ID left to right: fields whose first character determines them are recovered
      one at a time. */
  lemma {:induction false} FieldsPrefix(r1: string, m1: string, f1: string, r2: string, m2: string, f2: string, suffix: string)
    requires |r1| > 0 && |r2| > 0 && |m1| > 0 && |m2| > 0 && |f1| > 0
    requires r1[0] == r2[0] ==> r1 == r2
    requires m1[0] == m2[0] ==> m1 == m2
    requires r1 + "M" + m1 + "V" + f1 <= r2 + "M" + m2 + "V" + f2 + suffix
    ensures r1 == r2 && m1 == m2 && f1[0] == (f2 + suffix)[0]
  {
    assert r1 + "M" + m1 + "V" + f1 == r1 + ("M" + m1 + "V" + f1);
    assert r2 + "M" + m2 + "V" + f2 + suffix == r2 + ("M" + m2 + "V" + f2 + suffix);
    PrefixHead(r1 + ("M" + m1 + "V" + f1), r2 + ("M" + m2 + "V" + f2 + suffix));
    assert r1 == r2;
    assert r1 + ("M" + m1 + "V" + f1) == (r1 + "M") + (m1 + ("V" + f1));
    assert r2 + ("M" + m2 + "V" + f2 + suffix) == (r1 + "M") + (m2 + ("V" + (f2 + suffix)));
    PrefixDropCommon(r1 + "M", m1 + ("V" + f1), m2 + ("V" + (f2 + suffix)));
    PrefixHead(m1 + ("V" + f1), m2 + ("V" + (f2 + suffix)));
    assert m1 == m2;
    assert m1 + ("V" + f1) == (m1 + "V") + f1;
    assert m2 + ("V" + (f2 + suffix)) == (m1 + "V") + (f2 + suffix);
    PrefixDropCommon(m1 + "V", f1, f2 + suffix);
    PrefixHead(f1, f2 + suffix);
  }

  /** The ID of one spec is a prefix of another's ID followed by anything only when the two
      specs agree on runtime, memory and VPC. */
  lemma GeneratorIDPrefix(r1: string, m1: string, v1: bool, r2: string, m2: string, v2: bool, suffix: string)
    requires r1 in Runtimes && r2 in Runtimes && m1 in MemorySizes && m2 in MemorySizes
    requires GeneratorID(r1, m1, v1) <= GeneratorID(r2, m2, v2) + suffix
    ensures r1 == r2 && m1 == m2 && v1 == v2
  {
    RuntimeHeads();
    MemoryHeads();
    FlagHeads(v1, v2);
    FieldsPrefix(r1, m1, VpcFlag(v1), r2, m2, VpcFlag(v2), suffix);
  }

  /** Distinct points of the matrix have distinct IDs. */
  lemma GeneratorIDInjective(r1: string, m1: string, v1: bool, r2: string, m2: string, v2: bool)
    requires r1 in Runtimes && r2 in Runtimes && m1 in MemorySizes && m2 in MemorySizes
    ensures GeneratorID(r1, m1, v1) == GeneratorID(r2, m2, v2) ==> r1 == r2 && m1 == m2 && v1 == v2
  {
    if GeneratorID(r1, m1, v1) == GeneratorID(r2, m2, v2) {
      GeneratorIDPrefix(r1, m1, v1, r2, m2, v2, "");
    }
  }

  /** The three dimensions list no value twice. */
  lemma DimensionsDistinct()
    ensures forall i, j :: 0 <= i < j < |Runtimes| ==> Runtimes[i] != Runtimes[j]
    ensures forall i, j :: 0 <= i < j < |MemorySizes| ==> MemorySizes[i] != MemorySizes[j]
    ensures forall i, j :: 0 <= i < j < |VpcStates| ==> VpcStates[i] != VpcStates[j]
  {
    RuntimeHeads();
    MemoryHeads();
  }

  /** Within a region, a position is its memory, VPC and runtime coordinates put back together. */
  lemma RegionPosition(k: nat)
    requires k < SpecsPerRegion
    ensures k / 4 < |MemorySizes| && (k % 4) / 2 < |VpcStates| && k % 2 < |Runtimes|
    ensures k == 4 * (k / 4) + 2 * ((k % 4) / 2) + k % 2
  {
    MatrixPosition(k);
    assert k / 12 == 0 && k % 12 == k;
  }

  /** The memory, VPC and runtime coordinates of a position within a region. */
  lemma RegionCoordinates(k: nat) returns (m: nat, v: nat, r: nat)
    requires k < SpecsPerRegion
    ensures m < |MemorySizes| && v < |VpcStates| && r < |Runtimes| && k == 4 * m + 2 * v + r
  {
    RegionPosition(k);
    m, v, r := k / 4, (k % 4) / 2, k % 2;
  }

  /** Specs of one region have pairwise distinct IDs. */
  lemma IDsDistinctWithinRegion(region: string, k1: nat, k2: nat)
    requires k1 < k2 < SpecsPerRegion
    ensures |SpecsForRegion(region)| == SpecsPerRegion
    ensures SpecsForRegion(region)[k1].generatorID != SpecsForRegion(region)[k2].generatorID
  {
    var m1, v1, r1 := RegionCoordinates(k1);
    var m2, v2, r2 := RegionCoordinates(k2);
    SpecsForRegionAt(region, m1, v1, r1);
    SpecsForRegionAt(region, m2, v2, r2);
    SameIDSameCoordinates(m1, v1, r1, m2, v2, r2);
  }

  /** Two points of the matrix given by their coordinates have the same ID only when they are
      the same point. */
  lemma SameIDSameCoordinates(m1: nat, v1: nat, r1: nat, m2: nat, v2: nat, r2: nat)
    requires m1 < |MemorySizes| && v1 < |VpcStates| && r1 < |Runtimes|
    requires m2 < |MemorySizes| && v2 < |VpcStates| && r2 < |Runtimes|
    ensures GeneratorID(Runtimes[r1], MemorySizes[m1], VpcStates[v1]) == GeneratorID(Runtimes[r2], MemorySizes[m2], VpcStates[v2])
            ==> m1 == m2 && v1 == v2 && r1 == r2
  {
    DimensionsDistinct();
    GeneratorIDInjective(Runtimes[r1], MemorySizes[m1], VpcStates[v1], Runtimes[r2], MemorySizes[m2], VpcStates[v2]);
  }

  /** Adding a multiple of four keeps the remainder by four. */
  lemma Mod4After(a: nat, r: nat)
    ensures (4 * a + r) % 4 == r % 4
  {
    var q := r / 4;
    assert r == 4 * q + r % 4;
    assert 4 * a + r == 4 * (a + q) + r % 4;
  }
  /** Adding a multiple of two keeps the remainder by two. */
  lemma Mod2After(a: nat, r: nat)
    ensures (2 * a + r) % 2 == r % 2
  {
    var q := r / 2;
    assert r == 2 * q + r % 2;
    assert 2 * a + r == 2 * (a + q) + r % 2;
  }
  /** A position of the matrix is its region, memory, VPC and runtime coordinates put back
      together. */
  lemma MatrixPosition(k: nat)
    ensures k == 12 * (k / 12) + 4 * ((k % 12) / 4) + 2 * ((k % 4) / 2) + k % 2
  {
    var q, r := k / 12, k % 12;
    assert k == 4 * (3 * q) + r;
    Mod4After(3 * q, r);
    assert r == 4 * (r / 4) + r % 4;
    Mod2After(6 * q + 2 * (r / 4), r % 4);
    assert k == 2 * (6 * q + 2 * (r / 4)) + r % 4;
    assert k % 4 == 2 * ((k % 4) / 2) + k % 4 % 2;
    assert (r % 4) % 2 == k % 2;
  }
  /** One region further on, the other three coordinates are the same. */
  lemma MatrixShift(k: nat)
    ensures ((k + 12) % 12) / 4 == (k % 12) / 4 && ((k + 12) % 4) / 2 == (k % 4) / 2 && (k + 12) % 2 == k % 2
  {
    assert (k + 12) % 12 == k % 12;
    Mod4After(3, k);
    Mod2After(6, k);
  }

  /** The four coordinates MatrixEntry reads off a position determine the position, stay the
      same one region further on, and do not decrease in the region coordinate. */
  lemma MatrixCoordinates(k1: nat, k2: nat)
    ensures k1 / 12 == k2 / 12 && (k1 % 12) / 4 == (k2 % 12) / 4 && (k1 % 4) / 2 == (k2 % 4) / 2 && k1 % 2 == k2 % 2
            ==> k1 == k2
    ensures k2 == k1 + 12 ==> (k1 % 12) / 4 == (k2 % 12) / 4 && (k1 % 4) / 2 == (k2 % 4) / 2 && k1 % 2 == k2 % 2
    ensures k1 <= k2 ==> k1 / 12 <= k2 / 12
  {
    MatrixPosition(k1);
    MatrixPosition(k2);
    MatrixShift(k1);
  }

  /** The region is not part of the ID: the same twelve IDs recur in every region, so only the
      pair (region, ID) tells specs apart, and it does when the regions are distinct. */
  lemma RegionAndIDIdentifySpec(regions: seq<string>, k1: nat, k2: nat)
    requires forall i, j :: 0 <= i < j < |regions| ==> regions[i] != regions[j]
    requires k1 < k2 < |CreateGeneratorSpecs(regions)|
    ensures CreateGeneratorSpecs(regions)[k1].region != CreateGeneratorSpecs(regions)[k2].region
         || CreateGeneratorSpecs(regions)[k1].generatorID != CreateGeneratorSpecs(regions)[k2].generatorID
    ensures k2 == k1 + SpecsPerRegion ==> CreateGeneratorSpecs(regions)[k1].generatorID == CreateGeneratorSpecs(regions)[k2].generatorID
  {
    MatrixEntry(regions, k1);
    MatrixEntry(regions, k2);
    MatrixCoordinates(k1, k2);
    GeneratorIDInjective(Runtimes[k1 % 2], MemorySizes[(k1 % 12) / 4], VpcStates[(k1 % 4) / 2],
                         Runtimes[k2 % 2], MemorySizes[(k2 % 12) / 4], VpcStates[(k2 % 4) / 2]);
  }

  // ---------------------------------------------------------------------------------------
  // Resolving instances against the stack's functions

  /** `${generatorSpec.generatorID}I${instanceID}`: the logical ID of a replica. */
  function InstanceGeneratorID(base: string, instanceID: nat): string
  {
    base + "I" + DecimalString(instanceID)
  }

  /** `physical` is the PhysicalResourceId of the first resource whose LogicalResourceId is
      `logical`. */
  ghost predicate FirstMatch(resources: seq<StackResource>, logical: string, physical: string)
  {
    exists k :: 0 <= k < |resources| && resources[k].logicalResourceId == logical
             && resources[k].physicalResourceId == physical
             && forall j :: 0 <= j < k ==> resources[j].logicalResourceId != logical
  }

  ghost predicate Resolvable(resources: seq<StackResource>, logical: string)
  {
    exists k :: 0 <= k < |resources| && resources[k].logicalResourceId == logical
  }

  /** `find` by LogicalResourceId, then `.PhysicalResourceId`; a miss is a failure naming the
      missing logical ID. */
  function FindGeneratorPhysicalResourceID(resources: seq<StackResource>, logical: string): (r: Result<string>)
    ensures r.Ok? <==> Resolvable(resources, logical)
    ensures r.Ok? ==> FirstMatch(resources, logical, r.value)
    ensures r.Err? ==> r.error == MissingFunction(logical)
  {
    match Find(resources, (res: StackResource) => res.logicalResourceId == logical)
    case Some(res) => Ok(res.physicalResourceId)
    case None => Err(MissingFunction(logical))
  }

  /** `inst` is replica `id` of `spec`: its own ID and number, the spec's configuration. */
  ghost predicate ReplicaOf(spec: GeneratorSpec, inst: InstanceSpec, id: nat)
  {
    && inst.generatorID == InstanceGeneratorID(spec.generatorID, id)
    && inst.instanceID == id
    && inst.runtime == spec.runtime
    && inst.memory == spec.memory
    && inst.packageSize == spec.packageSize
    && inst.region == spec.region
    && inst.vpc == spec.vpc
  }

  /** `inst` is replica `id` of `spec`, bound to the function whose logical ID is its own. */
  ghost predicate InstanceOf(spec: GeneratorSpec, inst: InstanceSpec, id: nat, resources: seq<StackResource>)
  {
    ReplicaOf(spec, inst, id) && FirstMatch(resources, inst.generatorID, inst.generatorFunction)
  }

  /** The object built for replica `id` of `spec`; reading the PhysicalResourceId of a missing
      function aborts the whole map. */
  function ResolveInstance(spec: GeneratorSpec, resources: seq<StackResource>, id: nat): (r: Result<InstanceSpec>)
    ensures r.Ok? <==> Resolvable(resources, InstanceGeneratorID(spec.generatorID, id))
    ensures r.Ok? ==> InstanceOf(spec, r.value, id, resources)
    ensures r.Err? ==> r.error == MissingFunction(InstanceGeneratorID(spec.generatorID, id))
  {
    var logical := InstanceGeneratorID(spec.generatorID, id);
    match FindGeneratorPhysicalResourceID(resources, logical)
    case Err(e) => Err(e)
    case Ok(physical) =>
      Ok(InstanceSpec(logical, spec.runtime, spec.memory, spec.packageSize, spec.region, spec.vpc, physical, id))
  }

  /** createGeneratorInstanceSpecsForGenerator: the three replicas of a spec, in order; the
      first replica whose function is missing is the failure. */
  function CreateGeneratorInstanceSpecsForGenerator(spec: GeneratorSpec, resources: seq<StackResource>): (r: Result<seq<InstanceSpec>>)
    ensures r.Ok? <==> forall n :: 1 <= n <= 3 ==> Resolvable(resources, InstanceGeneratorID(spec.generatorID, n))
    ensures r.Ok? ==> |r.value| == 3
    ensures r.Ok? ==> forall k :: 0 <= k < 3 ==> InstanceOf(spec, r.value[k], k + 1, resources)
    ensures r.Ok? ==> forall k :: 0 <= k < 3 ==> spec.generatorID <= r.value[k].generatorID
    ensures r.Err? ==> exists n :: (1 <= n <= 3 && r.error == MissingFunction(InstanceGeneratorID(spec.generatorID, n))
                                     && forall m :: 1 <= m < n ==> Resolvable(resources, InstanceGeneratorID(spec.generatorID, m)))
  {
    var rs := seq(|InstanceIDs|, k requires 0 <= k < |InstanceIDs| => ResolveInstance(spec, resources, InstanceIDs[k]));
    assert |rs| == 3 && forall k :: 0 <= k < 3 ==> rs[k] == ResolveInstance(spec, resources, k + 1);
    ReplicasSucceed(spec, resources, rs);
    ReplicasFail(spec, resources, rs);
    ReplicaIDs(spec, resources, rs);
    AllOk(rs)
  }

  /** The three lookups all succeed exactly when all three replicas are in the listing. */
  lemma ReplicasSucceed(spec: GeneratorSpec, resources: seq<StackResource>, rs: seq<Result<InstanceSpec>>)
    requires |rs| == 3 && forall k :: 0 <= k < 3 ==> rs[k] == ResolveInstance(spec, resources, k + 1)
    ensures AllOk(rs).Ok? <==> forall n :: 1 <= n <= 3 ==> Resolvable(resources, InstanceGeneratorID(spec.generatorID, n))
  {
    if forall k :: 0 <= k < |rs| ==> rs[k].Ok? {
      forall n | 1 <= n <= 3 ensures Resolvable(resources, InstanceGeneratorID(spec.generatorID, n)) {
        assert rs[n - 1].Ok?;
      }
    }
  }

  /** A failure names the first replica missing from the listing. */
  lemma ReplicasFail(spec: GeneratorSpec, resources: seq<StackResource>, rs: seq<Result<InstanceSpec>>)
    requires |rs| == 3 && forall k :: 0 <= k < 3 ==> rs[k] == ResolveInstance(spec, resources, k + 1)
    ensures AllOk(rs).Err? ==> exists n :: (1 <= n <= 3 && AllOk(rs).error == MissingFunction(InstanceGeneratorID(spec.generatorID, n))
                                           && forall m :: 1 <= m < n ==> Resolvable(resources, InstanceGeneratorID(spec.generatorID, m)))
  {
    if AllOk(rs).Err? {
      var k :| 0 <= k < |rs| && rs[k] == Err(AllOk(rs).error) && forall j :: 0 <= j < k ==> rs[j].Ok?;
      forall m | 1 <= m < k + 1 ensures Resolvable(resources, InstanceGeneratorID(spec.generatorID, m)) {
        assert rs[m - 1].Ok?;
      }
    }
  }

  /** Each replica's ID extends the spec's ID. */
  lemma ReplicaIDs(spec: GeneratorSpec, resources: seq<StackResource>, rs: seq<Result<InstanceSpec>>)
    requires |rs| == 3 && forall k :: 0 <= k < 3 ==> rs[k] == ResolveInstance(spec, resources, k + 1)
    ensures AllOk(rs).Ok? ==> forall k :: 0 <= k < 3 ==> spec.generatorID <= AllOk(rs).value[k].generatorID
  {
    if AllOk(rs).Ok? {
      forall k | 0 <= k < 3 ensures spec.generatorID <= AllOk(rs).value[k].generatorID {
        assert AllOk(rs).value[k].generatorID == spec.generatorID + ("I" + DecimalString(k + 1));
      }
    }
  }

  /** functionsInRegion: the stack's resources of type AWS::Lambda::Function, in listing order;
      fails when the listing cannot be drained. */
  function FunctionsInRegion(pages: seq<Page<StackResource>>): (r: Result<seq<StackResource>>)
    ensures r.Ok? <==> Paginate(pages, []).Some?
    ensures r.Ok? ==> r.value == Filter(Paginate(pages, []).value, (res: StackResource) => res.resourceType == LambdaFunctionType)
    ensures r.Ok? ==> forall res :: res in r.value ==> res.resourceType == LambdaFunctionType && res in Paginate(pages, []).value
    ensures r.Ok? ==> forall res :: res in Paginate(pages, []).value && res.resourceType == LambdaFunctionType ==> res in r.value
    ensures r.Err? ==> r.error == PagesExhausted
  {
    match Paginate(pages, [])
    case None => Err(PagesExhausted)
    case Some(all) => Ok(Filter(all, (res: StackResource) => res.resourceType == LambdaFunctionType))
  }

  /** The functions of every stack in one region, stack after stack; `listing(stack, region)`
      is the sequence of pages the region's CloudFormation answers with for that stack. */
  function FunctionsOfStacks(stackNames: seq<string>, region: string, listing: (string, string) -> seq<Page<StackResource>>): (r: Result<seq<StackResource>>)
    ensures r.Ok? <==> forall k :: 0 <= k < |stackNames| ==> FunctionsInRegion(listing(stackNames[k], region)).Ok?
    ensures r.Err? ==> r.error == PagesExhausted
  {
    var rs := seq(|stackNames|, k requires 0 <= k < |stackNames| => FunctionsInRegion(listing(stackNames[k], region)));
    assert |rs| == |stackNames| && forall k :: 0 <= k < |stackNames| ==> rs[k] == FunctionsInRegion(listing(stackNames[k], region));
    ConcatAll(rs)
  }

  /** The functions of the stacks are exactly each stack's functions, stack after stack, in
      the order the listing returns them. */
  lemma FunctionsOfStacksExact(stackNames: seq<string>, region: string, listing: (string, string) -> seq<Page<StackResource>>)
    requires FunctionsOfStacks(stackNames, region, listing).Ok?
    ensures FunctionsOfStacks(stackNames, region, listing).value == Flatten(FunctionsPerStack(stackNames, region, listing))
  {
    var rs := seq(|stackNames|, k requires 0 <= k < |stackNames| => FunctionsInRegion(listing(stackNames[k], region)));
    assert FunctionsOfStacks(stackNames, region, listing) == ConcatAll(rs);
    ConcatAllValues(rs, FunctionsPerStack(stackNames, region, listing));
  }

  /** The functions of the stacks are exactly the functions of each stack, and only functions. */
  lemma FunctionsOfStacksMembers(stackNames: seq<string>, region: string, listing: (string, string) -> seq<Page<StackResource>>)
    requires FunctionsOfStacks(stackNames, region, listing).Ok?
    ensures forall k, res :: 0 <= k < |stackNames| && res in FunctionsInRegion(listing(stackNames[k], region)).value ==>
              res in FunctionsOfStacks(stackNames, region, listing).value
    ensures forall res :: res in FunctionsOfStacks(stackNames, region, listing).value ==>
              exists k :: 0 <= k < |stackNames| && res in FunctionsInRegion(listing(stackNames[k], region)).value
    ensures forall res :: res in FunctionsOfStacks(stackNames, region, listing).value ==> res.resourceType == LambdaFunctionType
  {
    var fss := FunctionsPerStack(stackNames, region, listing);
    FunctionsOfStacksExact(stackNames, region, listing);
    forall res | res in FunctionsOfStacks(stackNames, region, listing).value
      ensures exists k :: 0 <= k < |stackNames| && res in FunctionsInRegion(listing(stackNames[k], region)).value
      ensures res.resourceType == LambdaFunctionType
    {
      var k :| 0 <= k < |fss| && res in fss[k];
      assert res in FunctionsInRegion(listing(stackNames[k], region)).value;
    }
  }

  /** The functions of each stack, one list per stack, when every listing can be drained. */
  function FunctionsPerStack(stackNames: seq<string>, region: string, listing: (string, string) -> seq<Page<StackResource>>): (fss: seq<seq<StackResource>>)
    requires forall k :: 0 <= k < |stackNames| ==> FunctionsInRegion(listing(stackNames[k], region)).Ok?
    ensures |fss| == |stackNames|
    ensures forall k :: 0 <= k < |stackNames| ==> fss[k] == FunctionsInRegion(listing(stackNames[k], region)).value
  {
    seq(|stackNames|, k requires 0 <= k < |stackNames| => FunctionsInRegion(listing(stackNames[k], region)).value)
  }

  /** The replicas of every spec, spec after spec, three per spec: replica j + 1 of spec k sits
      at position 3 * k + j. */
  function ResolveSpecs(specs: seq<GeneratorSpec>, resources: seq<StackResource>): (r: Result<seq<InstanceSpec>>)
    ensures r.Ok? <==> forall k :: 0 <= k < |specs| ==> CreateGeneratorInstanceSpecsForGenerator(specs[k], resources).Ok?
    ensures r.Ok? ==> |r.value| == 3 * |specs|
    ensures r.Ok? ==> forall i :: 0 <= i < |r.value| ==> InstanceOf(specs[i / 3], r.value[i], i % 3 + 1, resources)
  {
    var rs := seq(|specs|, k requires 0 <= k < |specs| => CreateGeneratorInstanceSpecsForGenerator(specs[k], resources));
    assert |rs| == |specs| && forall k :: 0 <= k < |specs| ==> rs[k] == CreateGeneratorInstanceSpecsForGenerator(specs[k], resources);
    var r := ConcatAll(rs);
    if r.Ok? then ResolvedLayout(specs, resources, rs); r else r
  }

  lemma ResolvedLayout(specs: seq<GeneratorSpec>, resources: seq<StackResource>, rs: seq<Result<seq<InstanceSpec>>>)
    requires |rs| == |specs| && forall k :: 0 <= k < |specs| ==> rs[k] == CreateGeneratorInstanceSpecsForGenerator(specs[k], resources)
    requires ConcatAll(rs).Ok?
    ensures |ConcatAll(rs).value| == 3 * |specs|
    ensures forall i :: 0 <= i < 3 * |specs| ==> InstanceOf(specs[i / 3], ConcatAll(rs).value[i], i % 3 + 1, resources)
  {
    ConcatAllUniform(rs, 3);
    forall i | 0 <= i < 3 * |specs| ensures InstanceOf(specs[i / 3], ConcatAll(rs).value[i], i % 3 + 1, resources) {
      DivModBelow(i, 3, |specs|);
    }
  }

  /** createGeneratorInstanceSpecsForRegion: list the functions of every stack in the region,
      then resolve the three replicas of each of the given specs against them. */
  function CreateGeneratorInstanceSpecsForRegion(stackNames: seq<string>, specs: seq<GeneratorSpec>, region: string,
                                                 listing: (string, string) -> seq<Page<StackResource>>): (r: Result<seq<InstanceSpec>>)
    ensures r.Ok? <==> (FunctionsOfStacks(stackNames, region, listing).Ok?
                        && ResolveSpecs(specs, FunctionsOfStacks(stackNames, region, listing).value).Ok?)
    ensures r.Ok? ==> |r.value| == 3 * |specs|
    ensures r.Ok? ==> forall i :: 0 <= i < |r.value| ==>
                        InstanceOf(specs[i / 3], r.value[i], i % 3 + 1, FunctionsOfStacks(stackNames, region, listing).value)
    ensures r.Ok? && (forall k :: 0 <= k < |specs| ==> specs[k].region == region) ==>
              forall i :: 0 <= i < |r.value| ==> r.value[i].region == region
  {
    match FunctionsOfStacks(stackNames, region, listing)
    case Err(e) => Err(e)
    case Ok(resources) => ResolveSpecs(specs, resources)
  }

  /** The specs of one region, in matrix order. */
  function SpecsIn(specs: seq<GeneratorSpec>, region: string): seq<GeneratorSpec>
  {
    Filter(specs, (s: GeneratorSpec) => s.region == region)
  }

  /** How many instances each region contributes: three per spec of that region. */
  function InstanceCounts(specs: seq<GeneratorSpec>, regions: seq<string>): (counts: seq<nat>)
    ensures |counts| == |regions|
    ensures forall i :: 0 <= i < |regions| ==> counts[i] == 3 * |SpecsIn(specs, regions[i])|
  {
    seq(|regions|, i requires 0 <= i < |regions| => 3 * |SpecsIn(specs, regions[i])|)
  }

  /** `xs` consists of one block per region, in the order of `regions`, the i-th of length
      `sizes[i]` and holding only instances of region i. */
  ghost predicate GroupedByRegion(xs: seq<InstanceSpec>, regions: seq<string>, sizes: seq<nat>)
    requires |sizes| == |regions|
    decreases |regions|
  {
    if regions == [] then xs == []
    else
      && sizes[0] <= |xs|
      && (forall k :: 0 <= k < sizes[0] ==> xs[k].region == regions[0])
      && GroupedByRegion(xs[sizes[0]..], regions[1..], sizes[1..])
  }

  /** Blocks of the right sizes and regions, concatenated, are grouped by region. */
  lemma {:induction false} ConcatGrouped(rs: seq<Result<seq<InstanceSpec>>>, regions: seq<string>, sizes: seq<nat>)
    requires |rs| == |regions| == |sizes|
    requires forall i :: 0 <= i < |rs| ==> rs[i].Ok? && |rs[i].value| == sizes[i]
    requires forall i, k :: 0 <= i < |rs| && 0 <= k < sizes[i] ==> rs[i].value[k].region == regions[i]
    ensures ConcatAll(rs).Ok? && GroupedByRegion(ConcatAll(rs).value, regions, sizes)
  {
    if rs != [] {
      var all := ConcatAll(rs).value;
      ConcatAllCons(rs);
      assert all[sizes[0]..] == ConcatAll(rs[1..]).value;
      ConcatGrouped(rs[1..], regions[1..], sizes[1..]);
    }
  }

  /** createGeneratorInstanceSpecs: per region, the instances of that region's specs; the
      result is grouped by region in the order of `regions`. */
  function CreateGeneratorInstanceSpecs(stackNames: seq<string>, regions: seq<string>, specs: seq<GeneratorSpec>,
                                        listing: (string, string) -> seq<Page<StackResource>>): (r: Result<seq<InstanceSpec>>)
    ensures r.Ok? <==> forall i :: 0 <= i < |regions| ==>
                         CreateGeneratorInstanceSpecsForRegion(stackNames, SpecsIn(specs, regions[i]), regions[i], listing).Ok?
    ensures r.Ok? ==> r.value == Flatten(InstancesPerRegion(stackNames, regions, specs, listing))
    ensures r.Ok? ==> GroupedByRegion(r.value, regions, InstanceCounts(specs, regions))
  {
    var rs := RegionResults(stackNames, regions, specs, listing);
    var r := ConcatAll(rs);
    if r.Ok? then
      RegionsGrouped(stackNames, regions, specs, listing, rs);
      RegionsFlatten(stackNames, regions, specs, listing);
      r
    else r
  }

  /** The result of each region, in the order of `regions`. */
  function RegionResults(stackNames: seq<string>, regions: seq<string>, specs: seq<GeneratorSpec>,
                         listing: (string, string) -> seq<Page<StackResource>>): (rs: seq<Result<seq<InstanceSpec>>>)
    ensures |rs| == |regions|
    ensures forall i :: 0 <= i < |regions| ==>
              rs[i] == CreateGeneratorInstanceSpecsForRegion(stackNames, SpecsIn(specs, regions[i]), regions[i], listing)
  {
    seq(|regions|, i requires 0 <= i < |regions| =>
          CreateGeneratorInstanceSpecsForRegion(stackNames, SpecsIn(specs, regions[i]), regions[i], listing))
  }

  lemma RegionsFlatten(stackNames: seq<string>, regions: seq<string>, specs: seq<GeneratorSpec>,
                       listing: (string, string) -> seq<Page<StackResource>>)
    requires forall i :: 0 <= i < |regions| ==>
               CreateGeneratorInstanceSpecsForRegion(stackNames, SpecsIn(specs, regions[i]), regions[i], listing).Ok?
    ensures ConcatAll(RegionResults(stackNames, regions, specs, listing)) == Ok(Flatten(InstancesPerRegion(stackNames, regions, specs, listing)))
  {
    ConcatAllValues(RegionResults(stackNames, regions, specs, listing), InstancesPerRegion(stackNames, regions, specs, listing));
  }

  /** The instances of each region, one block per region, when every region resolves. */
  function InstancesPerRegion(stackNames: seq<string>, regions: seq<string>, specs: seq<GeneratorSpec>,
                              listing: (string, string) -> seq<Page<StackResource>>): (xss: seq<seq<InstanceSpec>>)
    requires forall i :: 0 <= i < |regions| ==>
               CreateGeneratorInstanceSpecsForRegion(stackNames, SpecsIn(specs, regions[i]), regions[i], listing).Ok?
    ensures |xss| == |regions|
    ensures forall i :: 0 <= i < |regions| ==>
              xss[i] == CreateGeneratorInstanceSpecsForRegion(stackNames, SpecsIn(specs, regions[i]), regions[i], listing).value
  {
    seq(|regions|, i requires 0 <= i < |regions| =>
          CreateGeneratorInstanceSpecsForRegion(stackNames, SpecsIn(specs, regions[i]), regions[i], listing).value)
  }

  /** The instances found for the specs of one region are three per spec, all in that region. */
  lemma InstancesOfRegion(stackNames: seq<string>, specs: seq<GeneratorSpec>, region: string,
                          listing: (string, string) -> seq<Page<StackResource>>)
    requires CreateGeneratorInstanceSpecsForRegion(stackNames, SpecsIn(specs, region), region, listing).Ok?
    ensures |CreateGeneratorInstanceSpecsForRegion(stackNames, SpecsIn(specs, region), region, listing).value| == 3 * |SpecsIn(specs, region)|
    ensures forall k :: 0 <= k < |CreateGeneratorInstanceSpecsForRegion(stackNames, SpecsIn(specs, region), region, listing).value| ==>
              CreateGeneratorInstanceSpecsForRegion(stackNames, SpecsIn(specs, region), region, listing).value[k].region == region
  {
    var here := SpecsIn(specs, region);
    forall j | 0 <= j < |here| ensures here[j].region == region {
      assert here[j] in here;
    }
  }

  lemma RegionsGrouped(stackNames: seq<string>, regions: seq<string>, specs: seq<GeneratorSpec>,
                       listing: (string, string) -> seq<Page<StackResource>>, rs: seq<Result<seq<InstanceSpec>>>)
    requires |rs| == |regions| && forall i :: 0 <= i < |regions| ==>
               rs[i] == CreateGeneratorInstanceSpecsForRegion(stackNames, SpecsIn(specs, regions[i]), regions[i], listing)
    requires ConcatAll(rs).Ok?
    ensures GroupedByRegion(ConcatAll(rs).value, regions, InstanceCounts(specs, regions))
  {
    var sizes := InstanceCounts(specs, regions);
    forall i | 0 <= i < |rs| ensures rs[i].Ok? && |rs[i].value| == sizes[i] && forall k :: 0 <= k < sizes[i] ==> rs[i].value[k].region == regions[i] {
      InstancesOfRegion(stackNames, specs, regions[i], listing);
    }
    ConcatGrouped(rs, regions, sizes);
  }

  // ---------------------------------------------------------------------------------------
  // The full matrix against the resolution

  /** Every spec of the matrix belongs to one of the regions it was built from. */
  lemma MatrixRegions(regions: seq<string>, s: GeneratorSpec)
    requires s in CreateGeneratorSpecs(regions)
    ensures s.region in regions
  {
    var k :| 0 <= k < |CreateGeneratorSpecs(regions)| && CreateGeneratorSpecs(regions)[k] == s;
    MatrixEntry(regions, k);
  }

  /** The matrix is the first region's twelve specs followed by the matrix of the others. */
  lemma CreateGeneratorSpecsCons(regions: seq<string>)
    requires |regions| > 0
    ensures CreateGeneratorSpecs(regions) == SpecsForRegion(regions[0]) + CreateGeneratorSpecs(regions[1..])
  {
    var xss := seq(|regions|, j requires 0 <= j < |regions| => SpecsForRegion(regions[j]));
    var tail := seq(|regions[1..]|, j requires 0 <= j < |regions[1..]| => SpecsForRegion(regions[1..][j]));
    assert xss == [SpecsForRegion(regions[0])] + tail;
    FlattenAppend([SpecsForRegion(regions[0])], tail);
  }

  /** Every spec built for a region names that region. */
  lemma SpecsForRegionRegion(region: string)
    ensures forall k :: 0 <= k < |SpecsForRegion(region)| ==> SpecsForRegion(region)[k].region == region
  {
    forall k | 0 <= k < |SpecsForRegion(region)| ensures SpecsForRegion(region)[k].region == region {
      SpecsForRegionAt(region, 0, 0, 0);
      RegionPosition(k);
      SpecsForRegionAt(region, k / 4, (k % 4) / 2, k % 2);
    }
  }

  /** With distinct regions, the specs of region i in the full matrix are exactly that
      region's twelve, so each region contributes 3 x 12 instances. */
  lemma {:induction false} SpecsInMatrix(regions: seq<string>, i: nat)
    requires forall a, b :: 0 <= a < b < |regions| ==> regions[a] != regions[b]
    requires i < |regions|
    ensures SpecsIn(CreateGeneratorSpecs(regions), regions[i]) == SpecsForRegion(regions[i])
    ensures |SpecsIn(CreateGeneratorSpecs(regions), regions[i])| == SpecsPerRegion
  {
    SpecsForRegionAt(regions[i], 0, 0, 0);
    if i == 0 {
      FirstRegionSpecs(regions);
    } else {
      var rest := regions[1..];
      DistinctTail(regions);
      assert rest[i - 1] == regions[i];
      SpecsInMatrix(rest, i - 1);
      LaterRegionSpecs(regions, i);
    }
  }

  /** Dropping the first region keeps the regions distinct. */
  lemma DistinctTail(regions: seq<string>)
    requires forall a, b :: 0 <= a < b < |regions| ==> regions[a] != regions[b]
    requires |regions| > 0
    ensures forall a, b :: 0 <= a < b < |regions[1..]| ==> regions[1..][a] != regions[1..][b]
  {
    forall a, b | 0 <= a < b < |regions[1..]| ensures regions[1..][a] != regions[1..][b] {
      assert regions[1..][a] == regions[a + 1] && regions[1..][b] == regions[b + 1];
    }
  }

  /** The first region's specs are exactly the twelve built for it. */
  lemma FirstRegionSpecs(regions: seq<string>)
    requires forall a, b :: 0 <= a < b < |regions| ==> regions[a] != regions[b]
    requires |regions| > 0
    ensures SpecsIn(CreateGeneratorSpecs(regions), regions[0]) == SpecsForRegion(regions[0])
  {
    var p := (s: GeneratorSpec) => s.region == regions[0];
    var first, later := SpecsForRegion(regions[0]), CreateGeneratorSpecs(regions[1..]);
    CreateGeneratorSpecsCons(regions);
    FilterAppend(first, later, p);
    SpecsForRegionRegion(regions[0]);
    FilterAll(first, p);
    forall k | 0 <= k < |later| ensures !p(later[k]) {
      MatrixRegions(regions[1..], later[k]);
    }
    FilterNone(later, p);
  }

  /** A later region's specs are found among the specs of the regions after the first. */
  lemma LaterRegionSpecs(regions: seq<string>, i: nat)
    requires forall a, b :: 0 <= a < b < |regions| ==> regions[a] != regions[b]
    requires 0 < i < |regions|
    ensures SpecsIn(CreateGeneratorSpecs(regions), regions[i]) == SpecsIn(CreateGeneratorSpecs(regions[1..]), regions[i])
  {
    var p := (s: GeneratorSpec) => s.region == regions[i];
    var first, later := SpecsForRegion(regions[0]), CreateGeneratorSpecs(regions[1..]);
    CreateGeneratorSpecsCons(regions);
    FilterAppend(first, later, p);
    SpecsForRegionRegion(regions[0]);
    FilterNone(first, p);
  }

  lemma MatrixInstanceCounts(regions: seq<string>)
    requires forall a, b :: 0 <= a < b < |regions| ==> regions[a] != regions[b]
    ensures forall i :: 0 <= i < |regions| ==> InstanceCounts(CreateGeneratorSpecs(regions), regions)[i] == 3 * SpecsPerRegion
  {
    forall i | 0 <= i < |regions| ensures InstanceCounts(CreateGeneratorSpecs(regions), regions)[i] == 3 * SpecsPerRegion {
      SpecsInMatrix(regions, i);
    }
  }

  /** Entry j of region i's block of the matrix is entry j of that region's twelve specs. */
  lemma MatrixBlock(regions: seq<string>, i: nat, j: nat)
    requires i < |regions| && j < SpecsPerRegion
    ensures SpecsPerRegion * i + j < |CreateGeneratorSpecs(regions)|
    ensures |SpecsForRegion(regions[i])| == SpecsPerRegion
    ensures CreateGeneratorSpecs(regions)[SpecsPerRegion * i + j] == SpecsForRegion(regions[i])[j]
  {
    var xss := seq(|regions|, i requires 0 <= i < |regions| => SpecsForRegion(regions[i]));
    forall k | 0 <= k < |xss| ensures |xss[k]| == 12 {
      SpecsForRegionAt(regions[k], 0, 0, 0);
    }
    FlattenUniform(xss, 12, i, j);
  }

  /** Entry r of block q of a sequence of 36-element blocks of triples: the triple it is in,
      counted over all blocks, and its place in that triple. */
  lemma TripleOfBlock(x: nat, q: nat, r: nat)
    requires r < 36 && x == 36 * q + r
    ensures x / 3 == 12 * q + r / 3
    ensures x % 3 == r % 3
  {
    assert x == 3 * (12 * q + r / 3) + r % 3;
  }

  /** `inst` is instance `x` of the resolved matrix: replica x % 3 + 1 of spec x / 3, bound to
      the first function with its logical ID among the functions of that spec's region. */
  ghost predicate InstanceAt(regions: seq<string>, stackNames: seq<string>, listing: (string, string) -> seq<Page<StackResource>>,
                             inst: InstanceSpec, x: nat)
  {
    && x / 3 < |CreateGeneratorSpecs(regions)|
    && FunctionsOfStacks(stackNames, CreateGeneratorSpecs(regions)[x / 3].region, listing).Ok?
    && InstanceOf(CreateGeneratorSpecs(regions)[x / 3], inst, x % 3 + 1,
                  FunctionsOfStacks(stackNames, CreateGeneratorSpecs(regions)[x / 3].region, listing).value)
  }

  /** `instances` is the whole matrix resolved: three replicas per spec, in matrix order. */
  ghost predicate ResolvesMatrix(instances: seq<InstanceSpec>, regions: seq<string>, stackNames: seq<string>,
                                 listing: (string, string) -> seq<Page<StackResource>>)
  {
    && |instances| == 3 * |CreateGeneratorSpecs(regions)|
    && forall x :: 0 <= x < |instances| ==> InstanceAt(regions, stackNames, listing, instances[x], x)
  }

  /** For the matrix of distinct regions, the instances come out in the matrix's own order:
      instance x is replica x % 3 + 1 of spec x / 3, bound to its function in its region. */
  lemma MatrixInstances(stackNames: seq<string>, regions: seq<string>, listing: (string, string) -> seq<Page<StackResource>>)
    requires forall a, b :: 0 <= a < b < |regions| ==> regions[a] != regions[b]
    requires CreateGeneratorInstanceSpecs(stackNames, regions, CreateGeneratorSpecs(regions), listing).Ok?
    ensures ResolvesMatrix(CreateGeneratorInstanceSpecs(stackNames, regions, CreateGeneratorSpecs(regions), listing).value,
                           regions, stackNames, listing)
    ensures |CreateGeneratorInstanceSpecs(stackNames, regions, CreateGeneratorSpecs(regions), listing).value| == 3 * |CreateGeneratorSpecs(regions)|
    ensures forall x :: 0 <= x < 3 * |CreateGeneratorSpecs(regions)| ==>
              ReplicaOf(CreateGeneratorSpecs(regions)[x / 3],
                        CreateGeneratorInstanceSpecs(stackNames, regions, CreateGeneratorSpecs(regions), listing).value[x], x % 3 + 1)
  {
    var matrix := CreateGeneratorSpecs(regions);
    var blocks := InstancesPerRegion(stackNames, regions, matrix, listing);
    assert CreateGeneratorInstanceSpecs(stackNames, regions, matrix, listing).value == Flatten(blocks);
    assert BlocksOfRegions(stackNames, regions, listing, blocks);
    BlockLengths(stackNames, regions, listing, blocks);
    FlattenUniformAll(blocks, 36);
    ResolvedBlocks(stackNames, regions, listing, blocks, Flatten(blocks));
    ResolvedReplicas(Flatten(blocks), regions, stackNames, listing);
  }

  /** `blocks` holds, region by region, the instances each region resolves to. */
  ghost predicate BlocksOfRegions(stackNames: seq<string>, regions: seq<string>, listing: (string, string) -> seq<Page<StackResource>>,
                                  blocks: seq<seq<InstanceSpec>>)
  {
    && |blocks| == |regions|
    && forall i :: 0 <= i < |regions| ==>
         && CreateGeneratorInstanceSpecsForRegion(stackNames, SpecsIn(CreateGeneratorSpecs(regions), regions[i]), regions[i], listing).Ok?
         && blocks[i] == CreateGeneratorInstanceSpecsForRegion(stackNames, SpecsIn(CreateGeneratorSpecs(regions), regions[i]), regions[i], listing).value
  }

  /** The regions' blocks of instances, laid one after the other, resolve the whole matrix. */
  lemma ResolvedBlocks(stackNames: seq<string>, regions: seq<string>, listing: (string, string) -> seq<Page<StackResource>>,
                       blocks: seq<seq<InstanceSpec>>, instances: seq<InstanceSpec>)
    requires forall a, b :: 0 <= a < b < |regions| ==> regions[a] != regions[b]
    requires BlocksOfRegions(stackNames, regions, listing, blocks)
    requires forall i :: 0 <= i < |blocks| ==> |blocks[i]| == 36
    requires |instances| == 36 * |blocks|
    requires forall x :: 0 <= x < |instances| ==> x / 36 < |blocks| && x % 36 < 36 && instances[x] == blocks[x / 36][x % 36]
    ensures ResolvesMatrix(instances, regions, stackNames, listing)
  {
    forall x | 0 <= x < |instances| ensures InstanceAt(regions, stackNames, listing, instances[x], x) {
      ResolvedInBlocks(stackNames, regions, listing, blocks, x);
    }
  }

  /** Each region's block holds three instances per spec of the region: 36. */
  lemma BlockLengths(stackNames: seq<string>, regions: seq<string>, listing: (string, string) -> seq<Page<StackResource>>,
                     blocks: seq<seq<InstanceSpec>>)
    requires forall a, b :: 0 <= a < b < |regions| ==> regions[a] != regions[b]
    requires BlocksOfRegions(stackNames, regions, listing, blocks)
    ensures forall i :: 0 <= i < |blocks| ==> |blocks[i]| == 36
  {
    forall i | 0 <= i < |blocks| ensures |blocks[i]| == 36 {
      SpecsInMatrix(regions, i);
    }
  }

  /** Entry x % 36 of block x / 36 is instance x of the resolved matrix. */
  lemma ResolvedInBlocks(stackNames: seq<string>, regions: seq<string>, listing: (string, string) -> seq<Page<StackResource>>,
                         blocks: seq<seq<InstanceSpec>>, x: nat)
    requires forall a, b :: 0 <= a < b < |regions| ==> regions[a] != regions[b]
    requires BlocksOfRegions(stackNames, regions, listing, blocks)
    requires forall i :: 0 <= i < |blocks| ==> |blocks[i]| == 36
    requires x < 36 * |blocks|
    ensures x / 36 < |blocks| && x % 36 < |blocks[x / 36]|
    ensures InstanceAt(regions, stackNames, listing, blocks[x / 36][x % 36], x)
  {
    DivModBelow(x, 36, |blocks|);
    ResolvedInBlock(stackNames, regions, listing, blocks, x, x / 36, x % 36);
  }

  /** Entry r of block q, which region q resolves, is instance x = 36q + r of the matrix. */
  lemma ResolvedInBlock(stackNames: seq<string>, regions: seq<string>, listing: (string, string) -> seq<Page<StackResource>>,
                        blocks: seq<seq<InstanceSpec>>, x: nat, q: nat, r: nat)
    requires forall a, b :: 0 <= a < b < |regions| ==> regions[a] != regions[b]
    requires BlocksOfRegions(stackNames, regions, listing, blocks)
    requires forall i :: 0 <= i < |blocks| ==> |blocks[i]| == 36
    requires q < |blocks| && r < 36 && x == 36 * q + r
    ensures InstanceAt(regions, stackNames, listing, blocks[q][r], x)
  {
    ReplicaAt(stackNames, regions, listing, blocks[q], blocks[q][r], x, q, r);
  }

  /** A resolved matrix holds, at position x, replica x % 3 + 1 of spec x / 3. */
  lemma ResolvedReplicas(instances: seq<InstanceSpec>, regions: seq<string>, stackNames: seq<string>,
                         listing: (string, string) -> seq<Page<StackResource>>)
    requires ResolvesMatrix(instances, regions, stackNames, listing)
    ensures |instances| == 3 * |CreateGeneratorSpecs(regions)|
    ensures forall x :: 0 <= x < |instances| ==> ReplicaOf(CreateGeneratorSpecs(regions)[x / 3], instances[x], x % 3 + 1)
  {
    forall x | 0 <= x < |instances| ensures ReplicaOf(CreateGeneratorSpecs(regions)[x / 3], instances[x], x % 3 + 1) {
      assert InstanceAt(regions, stackNames, listing, instances[x], x);
    }
  }

  lemma ReplicaAt(stackNames: seq<string>, regions: seq<string>, listing: (string, string) -> seq<Page<StackResource>>,
                  block: seq<InstanceSpec>, inst: InstanceSpec, x: nat, q: nat, r: nat)
    requires forall a, b :: 0 <= a < b < |regions| ==> regions[a] != regions[b]
    requires q < |regions| && r < |block| && r < 36 && x == 36 * q + r
    requires CreateGeneratorInstanceSpecsForRegion(stackNames, SpecsIn(CreateGeneratorSpecs(regions), regions[q]), regions[q], listing).Ok?
    requires block == CreateGeneratorInstanceSpecsForRegion(stackNames, SpecsIn(CreateGeneratorSpecs(regions), regions[q]), regions[q], listing).value && inst == block[r]
    ensures InstanceAt(regions, stackNames, listing, inst, x)
  {
    TripleOfBlock(x, q, r);
    ReplicaInBlock(stackNames, regions, listing, q, r, 12 * q + r / 3, r % 3);
  }

  /** Entry j of region i's block is replica j mod 3 + 1 of matrix entry k = 12i + j div 3,
      bound among the functions of region i. */
  lemma ReplicaInBlock(stackNames: seq<string>, regions: seq<string>, listing: (string, string) -> seq<Page<StackResource>>,
                       i: nat, j: nat, k: nat, r: nat)
    requires forall a, b :: 0 <= a < b < |regions| ==> regions[a] != regions[b]
    requires i < |regions| && j < 36 && k == SpecsPerRegion * i + j / 3 && r == j % 3
    requires CreateGeneratorInstanceSpecsForRegion(stackNames, SpecsIn(CreateGeneratorSpecs(regions), regions[i]), regions[i], listing).Ok?
    ensures k < |CreateGeneratorSpecs(regions)| && CreateGeneratorSpecs(regions)[k].region == regions[i]
    ensures FunctionsOfStacks(stackNames, regions[i], listing).Ok?
    ensures j < |CreateGeneratorInstanceSpecsForRegion(stackNames, SpecsIn(CreateGeneratorSpecs(regions), regions[i]), regions[i], listing).value|
    ensures InstanceOf(CreateGeneratorSpecs(regions)[k],
                       CreateGeneratorInstanceSpecsForRegion(stackNames, SpecsIn(CreateGeneratorSpecs(regions), regions[i]), regions[i], listing).value[j],
                       r + 1, FunctionsOfStacks(stackNames, regions[i], listing).value)
  {
    SpecOfBlock(regions, i, j / 3, k);
    var specs := SpecsIn(CreateGeneratorSpecs(regions), regions[i]);
    var block := CreateGeneratorInstanceSpecsForRegion(stackNames, specs, regions[i], listing);
    assert InstanceOf(specs[j / 3], block.value[j], j % 3 + 1, FunctionsOfStacks(stackNames, regions[i], listing).value);
  }

  /** Spec j of region i's specs is matrix entry k = 12i + j, in region i. */
  lemma SpecOfBlock(regions: seq<string>, i: nat, j: nat, k: nat)
    requires forall a, b :: 0 <= a < b < |regions| ==> regions[a] != regions[b]
    requires i < |regions| && j < SpecsPerRegion && k == SpecsPerRegion * i + j
    ensures k < |CreateGeneratorSpecs(regions)| && CreateGeneratorSpecs(regions)[k].region == regions[i]
    ensures |SpecsIn(CreateGeneratorSpecs(regions), regions[i])| == SpecsPerRegion
    ensures SpecsIn(CreateGeneratorSpecs(regions), regions[i])[j] == CreateGeneratorSpecs(regions)[k]
  {
    SpecsInMatrix(regions, i);
    MatrixBlock(regions, i, j);
    SpecsForRegionRegion(regions[i]);
  }

  /** Among the specs of the matrix, the one a replica belongs to is the only one whose region
      is the replica's and whose ID begins the replica's ID: that is how the timings of a
      generator are picked out again after collection. */
  lemma ReplicaIdentifiesSpec(regions: seq<string>, k: nat, k': nat, inst: InstanceSpec, id: nat)
    requires forall a, b :: 0 <= a < b < |regions| ==> regions[a] != regions[b]
    requires k < |CreateGeneratorSpecs(regions)| && k' < |CreateGeneratorSpecs(regions)|
    requires ReplicaOf(CreateGeneratorSpecs(regions)[k'], inst, id)
    ensures (inst.region == CreateGeneratorSpecs(regions)[k].region
             && CreateGeneratorSpecs(regions)[k].generatorID <= inst.generatorID) <==> k == k'
  {
    var matrix := CreateGeneratorSpecs(regions);
    var suffix := "I" + DecimalString(id);
    assert inst.generatorID == matrix[k'].generatorID + suffix;
    if inst.region == matrix[k].region && matrix[k].generatorID <= inst.generatorID {
      PrefixIdentifiesSpec(regions, k, k', suffix);
    }
  }

  lemma PrefixIdentifiesSpec(regions: seq<string>, k: nat, k': nat, suffix: string)
    requires forall a, b :: 0 <= a < b < |regions| ==> regions[a] != regions[b]
    requires k < |CreateGeneratorSpecs(regions)| && k' < |CreateGeneratorSpecs(regions)|
    requires CreateGeneratorSpecs(regions)[k].region == CreateGeneratorSpecs(regions)[k'].region
    requires CreateGeneratorSpecs(regions)[k].generatorID <= CreateGeneratorSpecs(regions)[k'].generatorID + suffix
    ensures k == k'
  {
    MatrixEntry(regions, k);
    MatrixEntry(regions, k');
    DimensionsDistinct();
    GeneratorIDPrefix(Runtimes[k % 2], MemorySizes[(k % 12) / 4], VpcStates[(k % 4) / 2],
                      Runtimes[k' % 2], MemorySizes[(k' % 12) / 4], VpcStates[(k' % 4) / 2], suffix);
    MatrixCoordinates(k, k');
  }
}
