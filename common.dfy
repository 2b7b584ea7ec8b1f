/** Shared helpers of the timings collector (timingsCollector/src/common.js) together with the
    small wrapper types and sequence operations (JavaScript's `concat`, `filter`, `find`,
    number-to-string) that the other modules are written against. */
module Common {

  datatype Option<+T> = None | Some(value: T)

  /** Every way a run of the collector can fail. In the source each of these is an exception:
      an explicit `throw` for the environment check, a TypeError from reading a property of
      `undefined` for the others (MissingTiming: an instance whose query found no trace left
      `undefined` among the timings being merged). */
  datatype Error =
    | MissingEnvVar(message: string)
    | PagesExhausted
    | MissingFunction(logicalResourceId: string)
    | MissingSegment(origin: string)
    | MissingTiming
    | TooFewTimings(generatorID: string, found: nat)

  datatype Result<+T> = Ok(value: T) | Err(error: Error)

  // ---------------------------------------------------------------------------------------
  // flatten: `[].concat(...arrayOfArrays)`

  /** Total number of elements in the inner sequences. */
  function SumLengths<T>(xss: seq<seq<T>>): nat
  {
    if xss == [] then 0 else |xss[0]| + SumLengths(xss[1..])
  }

  /** One-level concatenation of the inner sequences, in order. */
  function Flatten<T>(xss: seq<seq<T>>): (r: seq<T>)
    ensures |r| == SumLengths(xss)
    ensures forall x :: x in r ==> exists i :: 0 <= i < |xss| && x in xss[i]
    ensures forall i, x :: 0 <= i < |xss| && x in xss[i] ==> x in r
    ensures xss == [] ==> r == []
    ensures |xss| == 1 ==> r == xss[0]
  {
    if xss == [] then []
    else
      var rest := Flatten(xss[1..]);
      assert forall i, x :: 1 <= i < |xss| && x in xss[i] ==> x in rest by {
        forall i, x | 1 <= i < |xss| && x in xss[i] ensures x in rest {
          assert x in xss[1..][i - 1];
        }
      }
      xss[0] + rest
  }

  /** Flattening distributes over concatenation of the outer sequence. */
  lemma {:induction false} FlattenAppend<T>(a: seq<seq<T>>, b: seq<seq<T>>)
    ensures Flatten(a + b) == Flatten(a) + Flatten(b)
  {
    if a == [] {
      assert a + b == b;
    } else {
      assert (a + b)[1..] == a[1..] + b;
      FlattenAppend(a[1..], b);
    }
  }

  /** When every inner sequence has the same length `n`, element `j` of inner sequence `i`
      sits at position `n * i + j` of the flattened sequence. */
  lemma {:induction false} FlattenUniform<T>(xss: seq<seq<T>>, n: nat, i: nat, j: nat)
    requires forall k :: 0 <= k < |xss| ==> |xss[k]| == n
    requires i < |xss| && j < n
    ensures |Flatten(xss)| == n * |xss|
    ensures n * i + j < |Flatten(xss)| && Flatten(xss)[n * i + j] == xss[i][j]
  {
    FlattenUniformLength(xss, n);
    if i > 0 {
      FlattenUniform(xss[1..], n, i - 1, j);
      assert n * i + j == n + (n * (i - 1) + j);
    }
  }

  lemma {:induction false} FlattenUniformLength<T>(xss: seq<seq<T>>, n: nat)
    requires forall k :: 0 <= k < |xss| ==> |xss[k]| == n
    ensures |Flatten(xss)| == n * |xss|
  {
    if xss != [] {
      FlattenUniformLength(xss[1..], n);
      assert n * |xss| == n + n * |xss[1..]|;
    }
  }

  // ---------------------------------------------------------------------------------------
  // A map whose steps can fail: the first failure aborts it

  /** The error of the first failure in `rs`. */
  function FirstError<T>(rs: seq<Result<T>>): (e: Error)
    requires exists k :: 0 <= k < |rs| && rs[k].Err?
    ensures exists k :: 0 <= k < |rs| && rs[k] == Err(e) && forall j :: 0 <= j < k ==> rs[j].Ok?
  {
    if rs[0].Err? then rs[0].error
    else
      var e := FirstError(rs[1..]);
      assert exists k :: 0 <= k < |rs| && rs[k] == Err(e) && forall j :: 0 <= j < k ==> rs[j].Ok? by {
        var k :| 0 <= k < |rs[1..]| && rs[1..][k] == Err(e) && forall j :: 0 <= j < k ==> rs[1..][j].Ok?;
        assert rs[k + 1] == Err(e) && forall j :: 0 <= j < k + 1 ==> rs[j].Ok?;
      }
      e
  }

  /** The values of `rs` when every one succeeded, otherwise the first failure. This is what a
      `map` whose callback throws yields, and what `Promise.all` over such calls yields when the
      failures are taken in order. */
  function AllOk<T>(rs: seq<Result<T>>): (r: Result<seq<T>>)
    ensures r.Ok? <==> forall k :: 0 <= k < |rs| ==> rs[k].Ok?
    ensures r.Ok? ==> |r.value| == |rs| && forall k :: 0 <= k < |rs| ==> r.value[k] == rs[k].value
    ensures r.Err? ==> exists k :: 0 <= k < |rs| && rs[k] == Err(r.error) && forall j :: 0 <= j < k ==> rs[j].Ok?
  {
    if forall k :: 0 <= k < |rs| ==> rs[k].Ok? then
      Ok(seq(|rs|, k requires 0 <= k < |rs| => rs[k].value))
    else
      Err(FirstError(rs))
  }

  /** `flatten(await Promise.all(calls))`: the lists of every call, one after the other, when
      every call succeeded. */
  function ConcatAll<T>(rs: seq<Result<seq<T>>>): (r: Result<seq<T>>)
    ensures r.Ok? <==> forall k :: 0 <= k < |rs| ==> rs[k].Ok?
    ensures r.Ok? ==> forall k, x :: 0 <= k < |rs| && x in rs[k].value ==> x in r.value
    ensures r.Ok? ==> forall x :: x in r.value ==> exists k :: 0 <= k < |rs| && rs[k].Ok? && x in rs[k].value
    ensures r.Err? ==> exists k :: 0 <= k < |rs| && rs[k] == Err(r.error)
    ensures r.Err? ==> r.error == FirstError(rs)
  {
    match AllOk(rs)
    case Err(e) => Err(e)
    case Ok(lists) => Ok(Flatten(lists))
  }

  /** When every call succeeds, the concatenation is the flattening of the calls' lists. */
  lemma ConcatAllValues<T>(rs: seq<Result<seq<T>>>, xss: seq<seq<T>>)
    requires |rs| == |xss| && forall k :: 0 <= k < |rs| ==> rs[k] == Ok(xss[k])
    ensures ConcatAll(rs) == Ok(Flatten(xss))
  {
    assert AllOk(rs).value == xss;
  }

  /** When every call yields `n` elements, element `j` of call `k` is at position `n * k + j`. */
  lemma ConcatAllUniform<T>(rs: seq<Result<seq<T>>>, n: nat)
    requires forall k :: 0 <= k < |rs| ==> rs[k].Ok? && |rs[k].value| == n
    ensures ConcatAll(rs).Ok? && |ConcatAll(rs).value| == n * |rs|
    ensures n > 0 ==> forall i :: 0 <= i < |ConcatAll(rs).value| ==>
              i / n < |rs| && i % n < n && ConcatAll(rs).value[i] == rs[i / n].value[i % n]
  {
    var lists := AllOk(rs).value;
    assert ConcatAll(rs).value == Flatten(lists);
    assert forall k :: 0 <= k < |lists| ==> |lists[k]| == n;
    FlattenUniformAll(lists, n);
  }

  lemma FlattenUniformAll<T>(xss: seq<seq<T>>, n: nat)
    requires forall k :: 0 <= k < |xss| ==> |xss[k]| == n
    ensures |Flatten(xss)| == n * |xss|
    ensures n > 0 ==> forall i :: 0 <= i < |Flatten(xss)| ==>
              i / n < |xss| && i % n < n && Flatten(xss)[i] == xss[i / n][i % n]
  {
    FlattenUniformLength(xss, n);
    forall i | 0 <= i < |Flatten(xss)| && n > 0
      ensures i / n < |xss| && i % n < n && Flatten(xss)[i] == xss[i / n][i % n]
    {
      DivModBelow(i, n, |xss|);
      FlattenUniform(xss, n, i / n, i % n);
    }
  }

  /** Concatenating the calls' lists is the first list followed by the concatenation of the
      others. */
  lemma ConcatAllCons<T>(rs: seq<Result<seq<T>>>)
    requires |rs| > 0 && forall k :: 0 <= k < |rs| ==> rs[k].Ok?
    ensures ConcatAll(rs).Ok? && ConcatAll(rs[1..]).Ok?
    ensures ConcatAll(rs).value == rs[0].value + ConcatAll(rs[1..]).value
  {
    var lists, rest := AllOk(rs).value, AllOk(rs[1..]).value;
    assert lists[1..] == rest;
  }

  lemma DivModBelow(i: nat, n: nat, m: nat)
    requires n > 0 && i < n * m
    ensures i / n < m && i % n < n && i == n * (i / n) + i % n
  {
    var q := i / n;
    assert n * q <= i;
    MulMonotone(n, m, q);
  }

  lemma MulMonotone(n: nat, a: nat, b: nat)
    ensures a <= b ==> n * a <= n * b
  {
  }

  // ---------------------------------------------------------------------------------------
  // Array.prototype.filter and Array.prototype.find

  /** The elements of `s` that satisfy `p`, in their original order. */
  function Filter<T>(s: seq<T>, p: T -> bool): (r: seq<T>)
    ensures |r| <= |s|
    ensures forall x :: x in r ==> x in s && p(x)
    ensures forall x :: x in s && p(x) ==> x in r
  {
    if s == [] then []
    else if p(s[0]) then [s[0]] + Filter(s[1..], p)
    else Filter(s[1..], p)
  }

  /** Filtering distributes over concatenation: the order of the kept elements is the order of
      the input. */
  lemma {:induction false} FilterAppend<T>(a: seq<T>, b: seq<T>, p: T -> bool)
    ensures Filter(a + b, p) == Filter(a, p) + Filter(b, p)
  {
    if a == [] {
      assert a + b == b;
    } else {
      assert (a + b)[1..] == a[1..] + b;
      FilterAppend(a[1..], b, p);
    }
  }

  /** Filtering keeps everything when every element passes. */
  lemma {:induction false} FilterAll<T>(s: seq<T>, p: T -> bool)
    requires forall k :: 0 <= k < |s| ==> p(s[k])
    ensures Filter(s, p) == s
  {
    if s != [] {
      FilterAll(s[1..], p);
    }
  }

  /** Filtering drops everything when no element passes. */
  lemma {:induction false} FilterNone<T>(s: seq<T>, p: T -> bool)
    requires forall k :: 0 <= k < |s| ==> !p(s[k])
    ensures Filter(s, p) == []
  {
    if s != [] {
      FilterNone(s[1..], p);
    }
  }

  /** When exactly the elements at positions lo to hi - 1 pass, filtering keeps that block. */
  lemma FilterBlock<T>(s: seq<T>, p: T -> bool, lo: nat, hi: nat)
    requires lo <= hi <= |s|
    requires forall k :: 0 <= k < |s| ==> (p(s[k]) <==> lo <= k < hi)
    ensures Filter(s, p) == s[lo..hi]
  {
    var a, b, c := s[..lo], s[lo..hi], s[hi..];
    assert s == a + b + c;
    forall k | 0 <= k < |a| ensures !p(a[k]) {
      assert a[k] == s[k];
    }
    forall k | 0 <= k < |b| ensures p(b[k]) {
      assert b[k] == s[lo + k];
    }
    forall k | 0 <= k < |c| ensures !p(c[k]) {
      assert c[k] == s[hi + k];
    }
    FilterMiddle(a, b, c, p);
  }

  lemma FilterMiddle<T>(a: seq<T>, b: seq<T>, c: seq<T>, p: T -> bool)
    requires forall k :: 0 <= k < |a| ==> !p(a[k])
    requires forall k :: 0 <= k < |b| ==> p(b[k])
    requires forall k :: 0 <= k < |c| ==> !p(c[k])
    ensures Filter(a + b + c, p) == b
  {
    FilterNone(a, p);
    FilterAll(b, p);
    FilterNone(c, p);
    FilterAppend(a + b, c, p);
    FilterAppend(a, b, p);
  }

  /** The first element of `s` that satisfies `p`, or None (JavaScript's `undefined`). */
  function Find<T>(s: seq<T>, p: T -> bool): (r: Option<T>)
    ensures r.None? <==> forall k :: 0 <= k < |s| ==> !p(s[k])
    ensures r.Some? ==> exists k :: 0 <= k < |s| && s[k] == r.value && p(s[k]) && forall j :: 0 <= j < k ==> !p(s[j])
  {
    if s == [] then None
    else if p(s[0]) then Some(s[0])
    else
      var r := Find(s[1..], p);
      assert r.Some? ==> exists k :: 0 <= k < |s| && s[k] == r.value && p(s[k]) && forall j :: 0 <= j < k ==> !p(s[j]) by {
        if r.Some? {
          var k :| 0 <= k < |s[1..]| && s[1..][k] == r.value && p(s[1..][k]) && forall j :: 0 <= j < k ==> !p(s[1..][j]);
          assert s[k + 1] == r.value && forall j :: 0 <= j < k + 1 ==> !p(s[j]);
        }
      }
      r
  }

  // ---------------------------------------------------------------------------------------
  // Rendering a non-negative integer as JavaScript does in a template literal (`${n}`)

  function DigitChar(d: nat): (c: char)
    requires d < 10
  {
    ('0' as int + d) as char
  }

  predicate IsDigit(c: char)
  {
    '0' <= c <= '9'
  }

  /** Decimal digits of `n`, most significant first, with no leading zero. */
  function DecimalString(n: nat): (s: string)
    ensures |s| >= 1
    ensures forall k :: 0 <= k < |s| ==> IsDigit(s[k])
    ensures |s| > 1 ==> s[0] != '0'
    ensures n < 10 <==> |s| == 1
  {
    if n < 10 then [DigitChar(n)] else DecimalString(n / 10) + [DigitChar(n % 10)]
  }

  /** The number a string of decimal digits denotes; the reading side of DecimalString. */
  function DecimalValue(s: string): nat
    requires forall k :: 0 <= k < |s| ==> IsDigit(s[k])
  {
    if s == [] then 0
    else
      assert IsDigit(s[|s| - 1]);
      10 * DecimalValue(s[..|s| - 1]) + (s[|s| - 1] as int - '0' as int)
  }

  /** DecimalString loses nothing: reading the digits back gives the number. */
  lemma {:induction false} DecimalRoundTrip(n: nat)
    ensures DecimalValue(DecimalString(n)) == n
  {
    var s := DecimalString(n);
    if n >= 10 {
      DecimalRoundTrip(n / 10);
      assert s[..|s| - 1] == DecimalString(n / 10);
    }
  }

  // ---------------------------------------------------------------------------------------
  // allRegions and getAndCheckEnvVar

  /** The regions benchmarked; eu-west-3 (Paris) is absent because the tracing service is
      not available there. */
  const AllRegions: seq<string> := ["us-east-1", "us-east-2", "us-west-1", "us-west-2",
                                    "eu-central-1", "eu-west-1", "eu-west-2"]

  lemma AllRegionsFacts()
    ensures |AllRegions| == 7
    ensures forall i, j :: 0 <= i < j < |AllRegions| ==> AllRegions[i] != AllRegions[j]
    ensures "eu-west-3" !in AllRegions
  {
  }

  /** Reads a required setting from the environment (given here as a map); a setting that is
      absent or empty is a configuration error. */
  function GetAndCheckEnvVar(env: map<string, string>, name: string): (r: Result<string>)
    ensures r.Ok? <==> name in env && env[name] != ""
    ensures r.Ok? ==> r.value == env[name] && |r.value| > 0
    ensures r.Err? ==> r.error == MissingEnvVar("Expected environment variable " + name + " is not set")
  {
    if name !in env || |env[name]| == 0 then
      Err(MissingEnvVar("Expected environment variable " + name + " is not set"))
    else
      Ok(env[name])
  }
}
