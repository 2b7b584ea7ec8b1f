/** The JavaScript built-ins the collector sorts and deduplicates with, on fresh arrays:
    `Array.prototype.sort` with a comparator (timingsCollector/src/timingsCollector.js lines
    48 and 133), `sort()` without one followed by `reverse()` (lines 320 and 336), and the
    `[...new Set(xs)]` round trip (lines 318 and 334).

    The sort is a stable insertion sort over a total preorder `le`, where `le(a, b)` holds
    exactly when the source's comparator does not return a positive number for `(a, b)`. */
module Sorting {

  ghost predicate TotalPreorder<T(!new)>(le: (T, T) -> bool)
  {
    && (forall a, b :: le(a, b) || le(b, a))
    && (forall a, b, c :: le(a, b) && le(b, c) ==> le(a, c))
  }

  ghost predicate SortedBy<T>(s: seq<T>, le: (T, T) -> bool)
  {
    forall i, j :: 0 <= i < j < |s| ==> le(s[i], s[j])
  }

  /** Places `x` in front of the first element it is `le` to; elements it ties with stay in
      front of it only if they were already in front, so the sort below is stable. */
  function Insert<T(!new)>(x: T, s: seq<T>, le: (T, T) -> bool): (r: seq<T>)
    requires TotalPreorder(le) && SortedBy(s, le)
    ensures multiset(r) == multiset(s) + multiset{x}
    ensures SortedBy(r, le)
  {
    if s == [] then [x]
    else if le(x, s[0]) then
      assert forall j :: 0 <= j < |s| ==> le(x, s[j]);
      [x] + s
    else
      var t := Insert(x, s[1..], le);
      assert s == [s[0]] + s[1..];
      assert forall j :: 0 <= j < |t| ==> le(s[0], t[j]) by {
        forall j | 0 <= j < |t| ensures le(s[0], t[j]) {
          assert t[j] in multiset(t);
          if t[j] != x {
            assert t[j] in multiset(s[1..]);
            var i :| 0 <= i < |s[1..]| && s[1..][i] == t[j];
            assert s[i + 1] == t[j];
          }
        }
      }
      [s[0]] + t
  }

  /** Array.prototype.sort with the comparator that `le` stands for: an ascending
      rearrangement of `s`. */
  function SortBy<T(!new)>(s: seq<T>, le: (T, T) -> bool): (r: seq<T>)
    requires TotalPreorder(le)
    ensures multiset(r) == multiset(s)
    ensures |r| == |s|
    ensures SortedBy(r, le)
  {
    if s == [] then []
    else
      assert s == [s[0]] + s[1..];
      Insert(s[0], SortBy(s[1..], le), le)
  }

  /** A sorted rearrangement is determined up to elements that tie: in particular its first
      element is a least element and its last a greatest one. */
  lemma SortedEnds<T>(s: seq<T>, r: seq<T>, le: (T, T) -> bool)
    requires multiset(r) == multiset(s) && SortedBy(r, le) && |s| > 0
    ensures |r| == |s|
    ensures r[0] in s && r[|r| - 1] in s
    ensures forall x :: x in s ==> le(r[0], x) || r[0] == x
    ensures forall x :: x in s ==> le(x, r[|r| - 1]) || x == r[|r| - 1]
  {
    assert |r| == |multiset(r)| == |multiset(s)| == |s|;
    assert r[0] in multiset(r) && r[|r| - 1] in multiset(r);
    forall x | x in s ensures (le(r[0], x) || r[0] == x) && (le(x, r[|r| - 1]) || x == r[|r| - 1]) {
      assert x in multiset(r);
      var i :| 0 <= i < |r| && r[i] == x;
    }
  }

  // ---------------------------------------------------------------------------------------
  // The default order of `sort()` on strings: lexicographic by character code

  predicate LexLe(a: string, b: string)
    decreases |a|
  {
    a == [] || (b != [] && (a[0] < b[0] || (a[0] == b[0] && LexLe(a[1..], b[1..]))))
  }

  lemma {:induction false} LexLeTotal(a: string, b: string)
    ensures LexLe(a, b) || LexLe(b, a)
    decreases |a|
  {
    if a != [] && b != [] && a[0] == b[0] {
      LexLeTotal(a[1..], b[1..]);
    }
  }

  lemma {:induction false} LexLeTransitive(a: string, b: string, c: string)
    requires LexLe(a, b) && LexLe(b, c)
    ensures LexLe(a, c)
    decreases |a|
  {
    if a != [] && b != [] && c != [] && a[0] == b[0] && b[0] == c[0] {
      LexLeTransitive(a[1..], b[1..], c[1..]);
    }
  }

  lemma {:induction false} LexLeAntisymmetric(a: string, b: string)
    requires LexLe(a, b) && LexLe(b, a)
    ensures a == b
    decreases |a|
  {
    if a != [] && b != [] {
      LexLeAntisymmetric(a[1..], b[1..]);
      assert a == [a[0]] + a[1..] && b == [b[0]] + b[1..];
    }
  }

  /** The string order is a total order, so sorting by it is well defined. */
  lemma LexLeTotalOrder()
    ensures TotalPreorder(LexLe)
    ensures forall a, b :: LexLe(a, b) && LexLe(b, a) ==> a == b
  {
    forall a, b ensures LexLe(a, b) || LexLe(b, a) {
      LexLeTotal(a, b);
    }
    forall a, b, c | LexLe(a, b) && LexLe(b, c) ensures LexLe(a, c) {
      LexLeTransitive(a, b, c);
    }
    forall a, b | LexLe(a, b) && LexLe(b, a) ensures a == b {
      LexLeAntisymmetric(a, b);
    }
  }

  /** Strings that start with parts of the same length compare by those parts first and by
      the rest only when the parts are equal. */
  lemma {:induction false} LexLeAppend(a1: string, a2: string, b1: string, b2: string)
    requires |a1| == |a2|
    ensures LexLe(a1 + b1, a2 + b2) <==> (LexLe(a1, a2) && a1 != a2) || (a1 == a2 && LexLe(b1, b2))
    decreases |a1|
  {
    if a1 != [] {
      assert (a1 + b1)[0] == a1[0] && (a2 + b2)[0] == a2[0];
      assert (a1 + b1)[1..] == a1[1..] + b1 && (a2 + b2)[1..] == a2[1..] + b2;
      if a1[0] == a2[0] {
        assert a1 == [a1[0]] + a1[1..] && a2 == [a2[0]] + a2[1..];
        assert a1 == a2 <==> a1[1..] == a2[1..];
        LexLeAppend(a1[1..], a2[1..], b1, b2);
      } else {
        assert a1 != a2;
      }
    } else {
      assert a1 + b1 == b1 && a2 + b2 == b2;
    }
  }

  // ---------------------------------------------------------------------------------------
  // `[...new Set(xs)]` and `reverse()`

  ghost predicate NoDuplicates<T>(s: seq<T>)
  {
    forall i, j :: 0 <= i < j < |s| ==> s[i] != s[j]
  }

  /** The distinct elements of `s` in order of first occurrence, which is the iteration order
      of a JavaScript Set built from `s`. */
  function Dedupe<T(==)>(s: seq<T>): (r: seq<T>)
    ensures NoDuplicates(r)
    ensures forall x :: x in r ==> x in s
    ensures forall x :: x in s ==> x in r
  {
    if s == [] then []
    else
      var d := Dedupe(s[..|s| - 1]);
      assert s == s[..|s| - 1] + [s[|s| - 1]];
      if s[|s| - 1] in d then d else d + [s[|s| - 1]]
  }

  /** Array.prototype.reverse. */
  function Reverse<T>(s: seq<T>): (r: seq<T>)
    ensures |r| == |s|
    ensures forall i :: 0 <= i < |s| ==> r[i] == s[|s| - 1 - i]
  {
    if s == [] then [] else Reverse(s[1..]) + [s[0]]
  }

  /** `[...new Set(xs)].sort().reverse()`: the distinct strings of `xs`, each once, from the
      greatest to the least. */
  function DistinctDescending(xs: seq<string>): (r: seq<string>)
    ensures forall x :: x in r <==> x in xs
    ensures NoDuplicates(r)
    ensures forall i, j :: 0 <= i < j < |r| ==> LexLe(r[j], r[i]) && r[i] != r[j]
  {
    LexLeTotalOrder();
    var d := Dedupe(xs);
    var sorted := SortBy(d, LexLe);
    SortedDistinct(d, sorted);
    ReverseDescending(sorted, LexLe);
    ReverseElements(sorted);
    Reverse(sorted)
  }

  /** Sorting a sequence without duplicates keeps its elements and adds no duplicates. */
  lemma SortedDistinct<T>(d: seq<T>, sorted: seq<T>)
    requires NoDuplicates(d) && multiset(sorted) == multiset(d)
    ensures NoDuplicates(sorted)
    ensures forall x :: x in sorted <==> x in d
  {
    forall i, j | 0 <= i < j < |sorted| ensures sorted[i] != sorted[j] {
      NoDuplicatesCount(d, sorted[i]);
      CountTwo(sorted, i, j);
    }
    forall x ensures x in sorted <==> x in d {
      assert x in sorted <==> x in multiset(sorted);
      assert x in d <==> x in multiset(d);
    }
  }

  /** Reversing an ascending sequence without duplicates gives a strictly descending one. */
  lemma ReverseDescending<T>(sorted: seq<T>, le: (T, T) -> bool)
    requires SortedBy(sorted, le) && NoDuplicates(sorted)
    ensures forall i, j :: 0 <= i < j < |sorted| ==> le(Reverse(sorted)[j], Reverse(sorted)[i]) && Reverse(sorted)[i] != Reverse(sorted)[j]
  {
    var r := Reverse(sorted);
    var n := |sorted|;
    forall i, j | 0 <= i < j < n ensures le(r[j], r[i]) && r[i] != r[j] {
      assert r[i] == sorted[n - 1 - i] && r[j] == sorted[n - 1 - j];
    }
  }

  /** Reversing keeps the elements. */
  lemma ReverseElements<T>(s: seq<T>)
    ensures forall x :: x in Reverse(s) <==> x in s
  {
    var r := Reverse(s);
    var n := |s|;
    forall x ensures x in r <==> x in s {
      if x in r {
        var i :| 0 <= i < n && r[i] == x;
        assert s[n - 1 - i] == x;
      }
      if x in s {
        var i :| 0 <= i < n && s[i] == x;
        assert r[n - 1 - i] == x;
      }
    }
  }

  /** Each element of a sequence without duplicates occurs once. */
  lemma {:induction false} NoDuplicatesCount<T>(d: seq<T>, x: T)
    requires NoDuplicates(d)
    ensures multiset(d)[x] <= 1
  {
    if d != [] {
      assert d == [d[0]] + d[1..];
      NoDuplicatesCount(d[1..], x);
      if d[0] == x {
        assert x !in d[1..];
      }
    }
  }

  /** Two equal elements at different positions make an element that occurs twice. */
  lemma CountTwo<T>(s: seq<T>, i: nat, j: nat)
    requires i < j < |s|
    ensures multiset(s)[s[j]] >= if s[i] == s[j] then 2 else 1
  {
    assert s == s[..j] + [s[j]] + s[j + 1..];
    assert s[i] in s[..j];
  }
}
