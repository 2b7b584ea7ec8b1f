/** The date and hour partitions of the timestamped reports
    (timingsCollector/src/timingsCollector.js): the zero-padded date and hour written into a
    report's key, and the days and hours read back out of the keys of the reports already
    in the bucket, by character offset.

    The clock is not read: the year, the month index (0 for January, as `getMonth` gives
    it), the day of the month and the hour are parameters. */
module Partitions {
  import opened Common
  import opened Sorting

  const KeyPrefix: string := "lambda-benchmarks/runtime-invocation-latency"

  // ---------------------------------------------------------------------------------------
  // Writing: `("0" + n).slice(-2)`, todaysDateYYYYMMDD and the timestamped key

  /** `s.slice(-2)`: the last two characters, or all of a shorter string. */
  function SliceLast2(s: string): string
  {
    if |s| >= 2 then s[|s| - 2..] else s
  }

  /** `("0" + n).slice(-2)`: always the tens digit and the units digit of `n`. */
  function Pad2(n: nat): (r: string)
    ensures r == [DigitChar((n / 10) % 10), DigitChar(n % 10)]
  {
    var s := DecimalString(n);
    LastDigits(n);
    if n < 10 then
      assert "0" + s == [DigitChar(0), DigitChar(n)];
      SliceLast2("0" + s)
    else
      assert ("0" + s)[|"0" + s| - 2..] == s[|s| - 2..];
      SliceLast2("0" + s)
  }

  /** The last digit of `DecimalString(n)` is `n % 10`, the one before it `(n / 10) % 10`. */
  lemma LastDigits(n: nat)
    ensures DecimalString(n)[|DecimalString(n)| - 1] == DigitChar(n % 10)
    ensures n >= 10 ==> DecimalString(n)[|DecimalString(n)| - 2] == DigitChar((n / 10) % 10)
  {
    if n >= 10 {
      var m := n / 10;
      if m >= 10 {
        assert DecimalString(m)[|DecimalString(m)| - 1] == DigitChar(m % 10);
      }
    }
  }

  lemma Mod100(n: nat)
    ensures n % 100 == 10 * ((n / 10) % 10) + n % 10
  {
    var q, r := n / 100, n % 100;
    assert n == 10 * (10 * q + r / 10) + r % 10;
    assert n / 10 == 10 * q + r / 10 && n % 10 == r % 10;
    assert (n / 10) % 10 == r / 10;
  }

  /** The padded string reads back as the number modulo 100, so as the number itself for the
      month (1 to 12), the day (1 to 31) and the hour (0 to 23). */
  lemma Pad2Value(n: nat)
    ensures |Pad2(n)| == 2 && IsDigit(Pad2(n)[0]) && IsDigit(Pad2(n)[1])
    ensures DecimalValue(Pad2(n)) == n % 100
  {
    TwoDigitsValue((n / 10) % 10, n % 10);
    Mod100(n);
  }

  lemma TwoDigitsValue(d1: nat, d0: nat)
    requires d1 < 10 && d0 < 10
    ensures IsDigit(DigitChar(d1)) && IsDigit(DigitChar(d0))
    ensures DecimalValue([DigitChar(d1), DigitChar(d0)]) == 10 * d1 + d0
  {
    var r := [DigitChar(d1), DigitChar(d0)];
    var head := [DigitChar(d1)];
    assert head[..0] == [];
    assert DecimalValue(head) == d1;
    assert r[..1] == head;
    assert DecimalValue(r) == 10 * DecimalValue(head) + d0;
  }

  /** Two-character strings compare by their first character, then by their second. */
  lemma LexLeTwo(c1: char, c0: char, e1: char, e0: char)
    ensures LexLe([c1, c0], [e1, e0]) <==> c1 < e1 || (c1 == e1 && c0 <= e0)
  {
    assert [c1, c0][1..] == [c0] && [e1, e0][1..] == [e0];
    assert [c0][1..] == [] && [e0][1..] == [];
  }

  /** Padded numbers below 100 compare as strings as they compare as numbers. */
  lemma Pad2Order(a: nat, b: nat)
    requires a < 100 && b < 100
    ensures LexLe(Pad2(a), Pad2(b)) <==> a <= b
    ensures Pad2(a) == Pad2(b) <==> a == b
  {
    var a1, a0 := TensAndUnits(a);
    var b1, b0 := TensAndUnits(b);
    LexLeTwo(DigitChar(a1), DigitChar(a0), DigitChar(b1), DigitChar(b0));
    DigitCharOrder(a1, b1);
    DigitCharOrder(a0, b0);
    TwoDigitOrder(a1, a0, b1, b0);
  }

  /** The two digits of a number below 100, as Pad2 writes them. */
  lemma TensAndUnits(n: nat) returns (d1: nat, d0: nat)
    requires n < 100
    ensures d1 < 10 && d0 < 10 && n == 10 * d1 + d0
    ensures Pad2(n) == [DigitChar(d1), DigitChar(d0)]
  {
    d1, d0 := n / 10, n % 10;
    Mod100(n);
  }

  lemma DigitCharOrder(d: nat, e: nat)
    requires d < 10 && e < 10
    ensures DigitChar(d) <= DigitChar(e) <==> d <= e
    ensures DigitChar(d) == DigitChar(e) <==> d == e
  {
  }

  lemma TwoDigitOrder(a1: nat, a0: nat, b1: nat, b0: nat)
    requires a1 < 10 && a0 < 10 && b1 < 10 && b0 < 10
    ensures 10 * a1 + a0 <= 10 * b1 + b0 <==> a1 < b1 || (a1 == b1 && a0 <= b0)
    ensures 10 * a1 + a0 == 10 * b1 + b0 <==> a1 == b1 && a0 == b0
  {
  }

  /** todaysDateYYYYMMDD: `${year}-${MM}-${DD}` with the month counted from 1. */
  function TodaysDateYYYYMMDD(year: nat, monthIndex: nat, day: nat): (r: string)
    ensures 1000 <= year < 10000 ==> |r| == 10 && r[4] == '-' && r[7] == '-'
  {
    FourDigits(year);
    DecimalString(year) + "-" + Pad2(monthIndex + 1) + "-" + Pad2(day)
  }

  /** Years from 1000 to 9999 take four digits. */
  lemma FourDigits(year: nat)
    ensures 1000 <= year < 10000 ==> |DecimalString(year)| == 4
  {
    if 1000 <= year < 10000 {
      assert year / 10 / 10 == year / 100 && year / 100 / 10 == year / 1000;
      assert |DecimalString(year / 100)| == 2;
    }
  }

  /** `s` is a string of decimal digits that reads as `n`. */
  predicate Denotes(s: string, n: nat)
  {
    (forall k :: 0 <= k < |s| ==> IsDigit(s[k])) && DecimalValue(s) == n
  }

  /** The date string splits back into its fields: the year, the month counted from 1 and
      the day, each read back exactly. */
  lemma DateRoundTrip(year: nat, monthIndex: nat, day: nat)
    requires 1000 <= year < 10000 && monthIndex < 12 && 1 <= day <= 31
    ensures |TodaysDateYYYYMMDD(year, monthIndex, day)| == 10
    ensures TodaysDateYYYYMMDD(year, monthIndex, day)[4] == '-' && TodaysDateYYYYMMDD(year, monthIndex, day)[7] == '-'
    ensures Denotes(TodaysDateYYYYMMDD(year, monthIndex, day)[..4], year)
    ensures Denotes(TodaysDateYYYYMMDD(year, monthIndex, day)[5..7], monthIndex + 1)
    ensures Denotes(TodaysDateYYYYMMDD(year, monthIndex, day)[8..], day)
  {
    DateSlices(year, monthIndex, day);
    ReadBack(year, monthIndex + 1, day);
  }

  /** The year string and the padded month and day read back as the numbers. */
  lemma ReadBack(year: nat, month: nat, day: nat)
    requires month < 100 && day < 100
    ensures Denotes(DecimalString(year), year)
    ensures Denotes(Pad2(month), month) && Denotes(Pad2(day), day)
  {
    DecimalRoundTrip(year);
    PadDenotes(month);
    PadDenotes(day);
  }

  lemma PadDenotes(n: nat)
    requires n < 100
    ensures Denotes(Pad2(n), n)
  {
    var d1, d0 := TensAndUnits(n);
    TwoDigitsValue(d1, d0);
  }

  lemma DateSlices(year: nat, monthIndex: nat, day: nat)
    requires 1000 <= year < 10000
    ensures |TodaysDateYYYYMMDD(year, monthIndex, day)| == 10
    ensures TodaysDateYYYYMMDD(year, monthIndex, day)[..4] == DecimalString(year)
    ensures TodaysDateYYYYMMDD(year, monthIndex, day)[5..7] == Pad2(monthIndex + 1)
    ensures TodaysDateYYYYMMDD(year, monthIndex, day)[8..] == Pad2(day)
  {
    FourDigits(year);
  }

  /** The hour segment of a key: `("0" + getHours()).slice(-2)`. */
  function HourString(hour: nat): (r: string)
    ensures |r| == 2 && IsDigit(r[0]) && IsDigit(r[1])
    ensures hour < 24 ==> DecimalValue(r) == hour
  {
    Pad2Value(hour);
    Pad2(hour)
  }

  /** `${keyPrefix}/date=${date}/hour=${HH}/timings.${ext}`, the key of a timestamped report. */
  function TimestampedKey(date: string, hour: nat, ext: string): (key: string)
    ensures |key| >= |KeyPrefix| && key[..|KeyPrefix|] == KeyPrefix
    ensures |date| == 10 ==> |key| >= 68 && key[50..60] == date && key[66..68] == HourString(hour)
  {
    var head := KeyPrefix + "/date=";
    var key := head + date + ("/hour=" + HourString(hour) + "/timings." + ext);
    assert |head| == 50 && head[..|KeyPrefix|] == KeyPrefix;
    assert key[..|KeyPrefix|] == KeyPrefix by {
      assert key[..|KeyPrefix|] == head[..|KeyPrefix|];
    }
    key
  }

  // ---------------------------------------------------------------------------------------
  // Reading: findDaysWithContent and findHoursWithContent

  /** `s.substring(start, end)`: both ends clamped to the string, swapped when reversed. */
  function JsSubstring(s: string, start: nat, end: nat): (r: string)
    ensures start <= end <= |s| ==> r == s[start..end]
    ensures start <= |s| < end ==> r == s[start..]
    ensures end <= start <= |s| ==> r == s[end..start]
    ensures end <= |s| < start ==> r == s[end..]
    ensures |s| <= start && |s| <= end ==> r == []
    ensures |r| <= |s|
    ensures |r| == (if end <= |s| then end else |s|) - (if start <= |s| then start else |s|)
            || |r| == (if start <= |s| then start else |s|) - (if end <= |s| then end else |s|)
  {
    var a := if start <= |s| then start else |s|;
    var b := if end <= |s| then end else |s|;
    if a <= b then s[a..b] else s[b..a]
  }

  /** `dir.substring(50, 60)`: the ten characters after `${keyPrefix}/date=`. */
  function DayOfKey(key: string): string
  {
    JsSubstring(key, 50, 60)
  }

  /** `dir.substring(66, 68)`: the two characters after `${keyPrefix}/date=YYYY-MM-DD/hour=`. */
  function HourOfKey(key: string): string
  {
    JsSubstring(key, 66, 68)
  }

  /** The key of a report written with a ten-character date gives back that date and the
      padded hour at the offsets the index reads. */
  lemma KeyRoundTrip(date: string, hour: nat, ext: string)
    requires |date| == 10
    ensures DayOfKey(TimestampedKey(date, hour, ext)) == date
    ensures HourOfKey(TimestampedKey(date, hour, ext)) == HourString(hour)
  {
    var key := TimestampedKey(date, hour, ext);
    var head := KeyPrefix + "/date=";
    assert |head| == 50;
    assert key == head + date + ("/hour=" + HourString(hour) + "/timings." + ext);
    assert key[50..60] == date;
    assert key[66..68] == HourString(hour);
  }

  function DaysOf(keys: seq<string>): (days: seq<string>)
    ensures |days| == |keys|
    ensures forall i :: 0 <= i < |keys| ==> days[i] == DayOfKey(keys[i])
  {
    if keys == [] then [] else [DayOfKey(keys[0])] + DaysOf(keys[1..])
  }

  function HoursOf(keys: seq<string>): (hours: seq<string>)
    ensures |hours| == |keys|
    ensures forall i :: 0 <= i < |keys| ==> hours[i] == HourOfKey(keys[i])
  {
    if keys == [] then [] else [HourOfKey(keys[0])] + HoursOf(keys[1..])
  }

  /** findDaysWithContent over the keys of one listing: the day of every key, each once,
      from the greatest to the least string. */
  function FindDaysWithContent(keys: seq<string>): (days: seq<string>)
    ensures forall d :: d in days <==> exists i :: 0 <= i < |keys| && DayOfKey(keys[i]) == d
    ensures NoDuplicates(days)
    ensures forall i, j :: 0 <= i < j < |days| ==> LexLe(days[j], days[i]) && days[i] != days[j]
  {
    var ds := DaysOf(keys);
    assert forall d :: d in ds <==> exists i :: 0 <= i < |keys| && DayOfKey(keys[i]) == d by {
      forall d ensures d in ds <==> exists i :: 0 <= i < |keys| && DayOfKey(keys[i]) == d {
        if d in ds {
          var i :| 0 <= i < |ds| && ds[i] == d;
        }
      }
    }
    DistinctDescending(ds)
  }

  /** findHoursWithContent over the keys of one listing: the hour of every key, each once,
      from the greatest to the least string. */
  function FindHoursWithContent(keys: seq<string>): (hours: seq<string>)
    ensures forall h :: h in hours <==> exists i :: 0 <= i < |keys| && HourOfKey(keys[i]) == h
    ensures NoDuplicates(hours)
    ensures forall i, j :: 0 <= i < j < |hours| ==> LexLe(hours[j], hours[i]) && hours[i] != hours[j]
  {
    var hs := HoursOf(keys);
    assert forall h :: h in hs <==> exists i :: 0 <= i < |keys| && HourOfKey(keys[i]) == h by {
      forall h ensures h in hs <==> exists i :: 0 <= i < |keys| && HourOfKey(keys[i]) == h {
        if h in hs {
          var i :| 0 <= i < |hs| && hs[i] == h;
        }
      }
    }
    DistinctDescending(hs)
  }

  // ---------------------------------------------------------------------------------------
  // The descending string order of the dates is newest first

  /** (y1, m1, d1) is no later than (y2, m2, d2) on the calendar. */
  predicate NoLater(y1: nat, m1: nat, d1: nat, y2: nat, m2: nat, d2: nat)
  {
    y1 < y2 || (y1 == y2 && (m1 < m2 || (m1 == m2 && d1 <= d2)))
  }

  /** Numbers with the same number of digits compare as strings as they compare as numbers. */
  lemma {:induction false} DecimalOrder(x: nat, y: nat)
    requires |DecimalString(x)| == |DecimalString(y)|
    ensures LexLe(DecimalString(x), DecimalString(y)) <==> x <= y
    decreases x
  {
    if x >= 10 {
      var s, t := DecimalString(x / 10), DecimalString(y / 10);
      LexLeAppend(s, t, [DigitChar(x % 10)], [DigitChar(y % 10)]);
      DecimalOrder(x / 10, y / 10);
      DecimalRoundTrip(x / 10);
      DecimalRoundTrip(y / 10);
      assert s == t <==> x / 10 == y / 10;
    }
  }

  /** A date string is its year, then a dash and the padded month, then a dash and the padded
      day. */
  lemma DateParts(year: nat, monthIndex: nat, day: nat)
    ensures TodaysDateYYYYMMDD(year, monthIndex, day)
         == DecimalString(year) + ("-" + (Pad2(monthIndex + 1) + ("-" + Pad2(day))))
  {
  }

  /** For dates with four-digit years, the string order of todaysDateYYYYMMDD is the calendar
      order, so sorting the days and reversing them lists the newest day first. */
  lemma DateOrder(y1: nat, m1: nat, d1: nat, y2: nat, m2: nat, d2: nat)
    requires 1000 <= y1 < 10000 && 1000 <= y2 < 10000
    requires m1 < 12 && m2 < 12 && 1 <= d1 <= 31 && 1 <= d2 <= 31
    ensures LexLe(TodaysDateYYYYMMDD(y1, m1, d1), TodaysDateYYYYMMDD(y2, m2, d2)) <==> NoLater(y1, m1, d1, y2, m2, d2)
  {
    DateStringOrder(y1, m1, d1, y2, m2, d2);
    YearOrder(y1, y2);
    Pad2Order(m1 + 1, m2 + 1);
    Pad2Order(d1, d2);
    Lexicographic(DecimalString(y1), DecimalString(y2), Pad2(m1 + 1), Pad2(m2 + 1), Pad2(d1), Pad2(d2),
                  y1, m1 + 1, d1, y2, m2 + 1, d2);
    assert NoLater(y1, m1 + 1, d1, y2, m2 + 1, d2) <==> NoLater(y1, m1, d1, y2, m2, d2);
  }

  /** Four-digit years compare as strings as they compare as numbers. */
  lemma YearOrder(y1: nat, y2: nat)
    requires 1000 <= y1 < 10000 && 1000 <= y2 < 10000
    ensures LexLe(DecimalString(y1), DecimalString(y2)) <==> y1 <= y2
    ensures DecimalString(y1) == DecimalString(y2) <==> y1 == y2
  {
    FourDigits(y1);
    FourDigits(y2);
    DecimalOrder(y1, y2);
    DecimalRoundTrip(y1);
    DecimalRoundTrip(y2);
  }

  /** The string order of three fields, compared one after the other: the order of the
      strings they make when the first two fields have the same length in both. */
  predicate FieldsLexLe(Y1: string, M1: string, D1: string, Y2: string, M2: string, D2: string)
  {
    (LexLe(Y1, Y2) && Y1 != Y2) || (Y1 == Y2 && ((LexLe(M1, M2) && M1 != M2) || (M1 == M2 && LexLe(D1, D2))))
  }

  /** Three fields whose strings compare as their numbers compare give a lexicographic string
      order that is the calendar order. */
  lemma Lexicographic(Y1: string, Y2: string, M1: string, M2: string, D1: string, D2: string,
                      y1: nat, m1: nat, d1: nat, y2: nat, m2: nat, d2: nat)
    requires (LexLe(Y1, Y2) <==> y1 <= y2) && (Y1 == Y2 <==> y1 == y2)
    requires (LexLe(M1, M2) <==> m1 <= m2) && (M1 == M2 <==> m1 == m2)
    requires LexLe(D1, D2) <==> d1 <= d2
    ensures FieldsLexLe(Y1, M1, D1, Y2, M2, D2) <==> NoLater(y1, m1, d1, y2, m2, d2)
  {
  }

  /** Date strings with four-digit years compare by year, then month, then day string. */
  lemma DateStringOrder(y1: nat, m1: nat, d1: nat, y2: nat, m2: nat, d2: nat)
    requires 1000 <= y1 < 10000 && 1000 <= y2 < 10000
    ensures LexLe(TodaysDateYYYYMMDD(y1, m1, d1), TodaysDateYYYYMMDD(y2, m2, d2))
            <==> FieldsLexLe(DecimalString(y1), Pad2(m1 + 1), Pad2(d1), DecimalString(y2), Pad2(m2 + 1), Pad2(d2))
  {
    var Y1, Y2 := DecimalString(y1), DecimalString(y2);
    var M1, M2 := Pad2(m1 + 1), Pad2(m2 + 1);
    var D1, D2 := Pad2(d1), Pad2(d2);
    DateParts(y1, m1, d1);
    DateParts(y2, m2, d2);
    FourDigits(y1);
    FourDigits(y2);
    LexLeAppend(Y1, Y2, "-" + (M1 + ("-" + D1)), "-" + (M2 + ("-" + D2)));
    LexLeAppend("-", "-", M1 + ("-" + D1), M2 + ("-" + D2));
    LexLeAppend(M1, M2, "-" + D1, "-" + D2);
    LexLeAppend("-", "-", D1, D2);
  }
}
