/** `WaybackAnalyzer.analyze`: per-year snapshot counts, first and last
    capture, and the years missing between the first and the last observed
    year. */
module Coverage {
  import opened Wrappers
  import opened Text
  import opened Decimal
  import opened Years
  import opened Dates
  import opened Fetch

  datatype YearCount = YearCount(year: string, count: nat)

  /** The dictionary `analyze` returns. `yearlyCounts` keeps the order of
      `dict(sorted(...))`. */
  datatype Stats = Stats(
    totalSnapshots: nat,
    yearlyCounts: seq<YearCount>,
    firstSnapshot: string,
    lastSnapshot: string,
    missingYears: seq<string>,
    totalYears: nat)

  /** Rows `analyze` processes without raising: each has a timestamp, and
      the timestamp's `[:4]` is a year key `int()` accepts. */
  predicate ValidSnapshots(rows: seq<Row>)
  {
    forall i :: 0 <= i < |rows| ==> |rows[i]| > 0 && HasYear(rows[i][0])
  }

  /** `snapshot[0]` of every row, in order. */
  function Timestamps(rows: seq<Row>): (ts: seq<string>)
    requires forall i :: 0 <= i < |rows| ==> |rows[i]| > 0
    ensures |ts| == |rows|
    ensures forall i :: 0 <= i < |rows| ==> ts[i] == rows[i][0]
  {
    seq(|rows|, i requires 0 <= i < |rows| => rows[i][0])
  }

  predicate AllHaveYear(ts: seq<string>)
  {
    forall k :: 0 <= k < |ts| ==> HasYear(ts[k])
  }

  /** The number of timestamps whose `[:4]` is `y`. */
  function CountYear(ts: seq<string>, y: string): nat
  {
    if |ts| == 0 then 0
    else CountYear(ts[..|ts| - 1], y) + (if YearKey(ts[|ts| - 1]) == y then 1 else 0)
  }

  /** The distinct `[:4]` slices: `set(yearly_counts.keys())`. */
  function ObservedYears(ts: seq<string>): set<string>
  {
    set k | 0 <= k < |ts| :: YearKey(ts[k])
  }

  /** The `defaultdict(int)` after the counting loop: a key for each year
      seen, holding the number of timestamps in that year. */
  function Tally(ts: seq<string>): (m: map<string, nat>)
    ensures forall y :: y in m <==> CountYear(ts, y) > 0
    ensures forall y :: y in m ==> m[y] == CountYear(ts, y)
  {
    if |ts| == 0 then map[]
    else
      var m := Tally(ts[..|ts| - 1]);
      var y := YearKey(ts[|ts| - 1]);
      m[y := (if y in m then m[y] else 0) + 1]
  }

  /** A year has a positive count exactly when some timestamp is in it. */
  lemma {:induction false} CountYearPositive(ts: seq<string>, y: string)
    ensures CountYear(ts, y) > 0 <==> y in ObservedYears(ts)
    decreases |ts|
  {
    if |ts| > 0 {
      var init := ts[..|ts| - 1];
      CountYearPositive(init, y);
      assert ObservedYears(ts) == ObservedYears(init) + {YearKey(ts[|ts| - 1])} by {
        forall x | x in ObservedYears(ts)
          ensures x in ObservedYears(init) + {YearKey(ts[|ts| - 1])}
        {
          var k :| 0 <= k < |ts| && YearKey(ts[k]) == x;
          if k < |ts| - 1 {
            assert init[k] == ts[k];
          }
        }
        forall x | x in ObservedYears(init)
          ensures x in ObservedYears(ts)
        {
          var k :| 0 <= k < |init| && YearKey(init[k]) == x;
          assert ts[k] == init[k];
        }
      }
    }
  }

  /** `int(min(all_years))`: the least observed year. */
  function FirstYear(ts: seq<string>): (lo: int)
    requires |ts| > 0 && AllHaveYear(ts)
    ensures 1000 <= lo <= 9999
    ensures exists k :: 0 <= k < |ts| && YearOf(ts[k]) == lo
    ensures forall k :: 0 <= k < |ts| ==> lo <= YearOf(ts[k])
    decreases |ts|
  {
    if |ts| == 1 then YearOf(ts[0])
    else
      var init := ts[..|ts| - 1];
      var lo := FirstYear(init);
      var y := YearOf(ts[|ts| - 1]);
      assert forall k :: 0 <= k < |init| ==> init[k] == ts[k];
      if y < lo then y else lo
  }

  /** `int(max(all_years))`: the greatest observed year. */
  function LastYear(ts: seq<string>): (hi: int)
    requires |ts| > 0 && AllHaveYear(ts)
    ensures 1000 <= hi <= 9999
    ensures exists k :: 0 <= k < |ts| && YearOf(ts[k]) == hi
    ensures forall k :: 0 <= k < |ts| ==> YearOf(ts[k]) <= hi
    decreases |ts|
  {
    if |ts| == 1 then YearOf(ts[0])
    else
      var init := ts[..|ts| - 1];
      var hi := LastYear(init);
      var y := YearOf(ts[|ts| - 1]);
      assert forall k :: 0 <= k < |init| ==> init[k] == ts[k];
      if y > hi then y else hi
  }

  /** The bound `b` is below every element, so anything below `b` is too. */
  lemma LowerBoundStep(ts: seq<string>, b: string, t: string)
    requires forall k :: 0 <= k < |ts| ==> LexLessEq(b, ts[k])
    requires LexLessEq(t, b)
    ensures forall k :: 0 <= k < |ts| ==> LexLessEq(t, ts[k])
  {
    forall k | 0 <= k < |ts|
      ensures LexLessEq(t, ts[k])
    {
      LexLessEqTransitive(t, b, ts[k]);
    }
  }

  lemma UpperBoundStep(ts: seq<string>, b: string, t: string)
    requires forall k :: 0 <= k < |ts| ==> LexLessEq(ts[k], b)
    requires LexLessEq(b, t)
    ensures forall k :: 0 <= k < |ts| ==> LexLessEq(ts[k], t)
  {
    forall k | 0 <= k < |ts|
      ensures LexLessEq(ts[k], t)
    {
      LexLessEqTransitive(ts[k], b, t);
    }
  }

  /** `sorted(timestamps)[0]`: a timestamp that no timestamp precedes. */
  function Earliest(ts: seq<string>): (r: string)
    requires |ts| > 0
    ensures r in ts
    ensures forall k :: 0 <= k < |ts| ==> LexLessEq(r, ts[k])
    decreases |ts|
  {
    if |ts| == 1 then ts[0]
    else
      var init := ts[..|ts| - 1];
      var b := Earliest(init);
      var t := ts[|ts| - 1];
      assert forall k :: 0 <= k < |init| ==> init[k] == ts[k];
      if LexLess(t, b) then
        LowerBoundStep(init, b, t);
        t
      else
        LexLessTotal(t, b);
        b
  }

  /** `sorted(timestamps)[-1]`: a timestamp that no timestamp follows. */
  function Latest(ts: seq<string>): (r: string)
    requires |ts| > 0
    ensures r in ts
    ensures forall k :: 0 <= k < |ts| ==> LexLessEq(ts[k], r)
    decreases |ts|
  {
    if |ts| == 1 then ts[0]
    else
      var init := ts[..|ts| - 1];
      var b := Latest(init);
      var t := ts[|ts| - 1];
      assert forall k :: 0 <= k < |init| ==> init[k] == ts[k];
      if LexLess(b, t) then
        UpperBoundStep(init, b, t);
        t
      else
        LexLessTotal(t, b);
        b
  }

  function KeysOf(r: seq<YearCount>): (ks: seq<string>)
    ensures |ks| == |r|
    ensures forall i :: 0 <= i < |r| ==> ks[i] == r[i].year
  {
    seq(|r|, i requires 0 <= i < |r| => r[i].year)
  }

  /** The items of the tally for the years `lo..hi`, in increasing year
      order: `sorted(yearly_counts.items())` once every key lies in range. */
  function CountsInRange(m: map<string, nat>, lo: int, hi: int): (r: seq<YearCount>)
    requires 1000 <= lo && hi <= 9999 && lo <= hi + 1
    ensures forall i :: 0 <= i < |r| ==>
      IsYear(r[i].year) && lo <= YearValue(r[i].year) <= hi && r[i].year in m && r[i].count == m[r[i].year]
    ensures forall i, j :: 0 <= i < j < |r| ==> YearValue(r[i].year) < YearValue(r[j].year)
    decreases hi + 1 - lo
  {
    if lo > hi then []
    else
      ValueOfText(lo);
      var y := YearText(lo);
      var rest := CountsInRange(m, lo + 1, hi);
      if y in m then [YearCount(y, m[y])] + rest else rest
  }

  /** Every year of `lo..hi` that the tally holds has an entry. */
  lemma {:induction false} CountsInRangeComplete(m: map<string, nat>, lo: int, hi: int)
    requires 1000 <= lo && hi <= 9999 && lo <= hi + 1
    ensures forall n :: lo <= n <= hi && YearText(n) in m ==> YearText(n) in KeysOf(CountsInRange(m, lo, hi))
    decreases hi + 1 - lo
  {
    if lo <= hi {
      CountsInRangeComplete(m, lo + 1, hi);
      var y := YearText(lo);
      var rest := CountsInRange(m, lo + 1, hi);
      if y in m {
        assert KeysOf([YearCount(y, m[y])] + rest) == [y] + KeysOf(rest);
      }
    }
  }

  /** `sorted(expected_years - all_years)` for the range `lo..hi`. */
  function MissingInRange(m: map<string, nat>, lo: int, hi: int): (r: seq<string>)
    requires 1000 <= lo && hi <= 9999 && lo <= hi + 1
    ensures forall i :: 0 <= i < |r| ==> IsYear(r[i]) && lo <= YearValue(r[i]) <= hi && r[i] !in m
    ensures forall i, j :: 0 <= i < j < |r| ==> YearValue(r[i]) < YearValue(r[j])
    decreases hi + 1 - lo
  {
    if lo > hi then []
    else
      ValueOfText(lo);
      var y := YearText(lo);
      (if y in m then [] else [y]) + MissingInRange(m, lo + 1, hi)
  }

  /** Every year of `lo..hi` that the tally lacks is listed as missing. */
  lemma {:induction false} MissingInRangeComplete(m: map<string, nat>, lo: int, hi: int)
    requires 1000 <= lo && hi <= 9999 && lo <= hi + 1
    ensures forall n :: lo <= n <= hi && YearText(n) !in m ==> YearText(n) in MissingInRange(m, lo, hi)
    decreases hi + 1 - lo
  {
    if lo <= hi {
      MissingInRangeComplete(m, lo + 1, hi);
    }
  }

  /** Python's `sorted` order, without repeats. */
  predicate StrictlyAscending(s: seq<string>)
  {
    forall i, j :: 0 <= i < j < |s| ==> LexLess(s[i], s[j])
  }

  /** Years listed in increasing numeric order are in increasing string order. */
  lemma AscendingByValue(s: seq<string>)
    requires forall i :: 0 <= i < |s| ==> IsYear(s[i])
    requires forall i, j :: 0 <= i < j < |s| ==> YearValue(s[i]) < YearValue(s[j])
    ensures StrictlyAscending(s)
  {
    forall i, j | 0 <= i < j < |s|
      ensures LexLess(s[i], s[j])
    {
      YearOrder(s[i], s[j]);
    }
  }

  /** An ascending sequence lists as many distinct strings as it has elements. */
  lemma {:induction false} AscendingCardinality(s: seq<string>)
    requires StrictlyAscending(s)
    ensures |set x | x in s| == |s|
    decreases |s|
  {
    if |s| > 0 {
      var tail := s[1..];
      assert StrictlyAscending(tail) by {
        forall i, j | 0 <= i < j < |tail|
          ensures LexLess(tail[i], tail[j])
        {
          assert tail[i] == s[i + 1] && tail[j] == s[j + 1];
        }
      }
      AscendingCardinality(tail);
      assert s[0] !in tail by {
        forall k | 0 <= k < |tail|
          ensures tail[k] != s[0]
        {
          assert LexLess(s[0], s[k + 1]);
          LexLessIrreflexive(s[0]);
        }
      }
      assert (set x | x in s) == {s[0]} + (set x | x in tail) by {
        assert s == [s[0]] + tail;
      }
    }
  }

  /** The sum of the yearly counts. */
  function TotalCount(r: seq<YearCount>): nat
  {
    if |r| == 0 then 0 else r[0].count + TotalCount(r[1..])
  }

  /** The number of timestamps in the years `lo..hi`, year by year. */
  function RangeCount(ts: seq<string>, lo: int, hi: int): nat
    requires 1000 <= lo && hi <= 9999 && lo <= hi + 1
    decreases hi + 1 - lo
  {
    if lo > hi then 0 else CountYear(ts, YearText(lo)) + RangeCount(ts, lo + 1, hi)
  }

  /** How many years in `lo..hi` have the text `y`. */
  function Hits(y: string, lo: int, hi: int): nat
    requires 1000 <= lo && hi <= 9999 && lo <= hi + 1
    decreases hi + 1 - lo
  {
    if lo > hi then 0 else (if YearText(lo) == y then 1 else 0) + Hits(y, lo + 1, hi)
  }

  lemma {:induction false} TallyRangeSum(ts: seq<string>, lo: int, hi: int)
    requires 1000 <= lo && hi <= 9999 && lo <= hi + 1
    ensures TotalCount(CountsInRange(Tally(ts), lo, hi)) == RangeCount(ts, lo, hi)
    decreases hi + 1 - lo
  {
    if lo <= hi {
      TallyRangeSum(ts, lo + 1, hi);
      var m := Tally(ts);
      var y := YearText(lo);
      var rest := CountsInRange(m, lo + 1, hi);
      if y in m {
        var r := [YearCount(y, m[y])] + rest;
        assert CountsInRange(m, lo, hi) == r;
        assert r[1..] == rest;
      }
    }
  }

  lemma {:induction false} HitsNone(y: string, lo: int, hi: int)
    requires 1000 <= lo && hi <= 9999 && lo <= hi + 1
    requires IsYear(y) && YearValue(y) < lo
    ensures Hits(y, lo, hi) == 0
    decreases hi + 1 - lo
  {
    if lo <= hi {
      HitsNone(y, lo + 1, hi);
      TextOfValue(y);
      YearTextInjective(lo, YearValue(y));
    }
  }

  /** Each year key is the text of exactly one year of a range holding it. */
  lemma {:induction false} HitsOnce(y: string, lo: int, hi: int)
    requires 1000 <= lo && hi <= 9999
    requires IsYear(y) && lo <= YearValue(y) <= hi
    ensures Hits(y, lo, hi) == 1
    decreases hi + 1 - lo
  {
    TextOfValue(y);
    YearTextInjective(lo, YearValue(y));
    if lo == YearValue(y) {
      HitsNone(y, lo + 1, hi);
    } else {
      HitsOnce(y, lo + 1, hi);
    }
  }

  lemma {:induction false} RangeCountEmpty(lo: int, hi: int)
    requires 1000 <= lo && hi <= 9999 && lo <= hi + 1
    ensures RangeCount([], lo, hi) == 0
    decreases hi + 1 - lo
  {
    if lo <= hi {
      RangeCountEmpty(lo + 1, hi);
    }
  }

  lemma {:induction false} RangeCountAppend(ts: seq<string>, t: string, lo: int, hi: int)
    requires 1000 <= lo && hi <= 9999 && lo <= hi + 1
    ensures RangeCount(ts + [t], lo, hi) == RangeCount(ts, lo, hi) + Hits(YearKey(t), lo, hi)
    decreases hi + 1 - lo
  {
    if lo <= hi {
      RangeCountAppend(ts, t, lo + 1, hi);
      assert (ts + [t])[..|ts|] == ts;
    }
  }

  /** When every timestamp's year lies in `lo..hi`, counting year by year
      over the range counts every timestamp once. */
  lemma {:induction false} RangeCountAll(ts: seq<string>, lo: int, hi: int)
    requires 1000 <= lo && hi <= 9999 && lo <= hi + 1
    requires AllHaveYear(ts)
    requires forall k :: 0 <= k < |ts| ==> lo <= YearOf(ts[k]) <= hi
    ensures RangeCount(ts, lo, hi) == |ts|
    decreases |ts|
  {
    if |ts| == 0 {
      RangeCountEmpty(lo, hi);
    } else {
      var init, t := ts[..|ts| - 1], ts[|ts| - 1];
      assert forall k :: 0 <= k < |init| ==> init[k] == ts[k];
      RangeCountAll(init, lo, hi);
      assert ts == init + [t];
      RangeCountAppend(init, t, lo, hi);
      HitsOnce(YearKey(t), lo, hi);
    }
  }

  /** The keys of the tally are the observed years, all inside the span
      from the first to the last observed year. */
  lemma TallyKeys(ts: seq<string>)
    requires |ts| > 0 && AllHaveYear(ts)
    ensures Tally(ts).Keys == ObservedYears(ts)
    ensures forall y :: y in ObservedYears(ts) ==>
      IsYear(y) && FirstYear(ts) <= YearValue(y) <= LastYear(ts) && YearText(YearValue(y)) == y
  {
    forall y
      ensures y in Tally(ts) <==> y in ObservedYears(ts)
    {
      CountYearPositive(ts, y);
    }
    forall y | y in ObservedYears(ts)
      ensures IsYear(y) && FirstYear(ts) <= YearValue(y) <= LastYear(ts) && YearText(YearValue(y)) == y
    {
      var k :| 0 <= k < |ts| && YearKey(ts[k]) == y;
      TextOfValue(y);
    }
  }

  /** The total of the yearly counts is the number of timestamps. */
  ghost predicate CountsConserved(s: Stats, ts: seq<string>)
  {
    s.totalSnapshots == |ts| && TotalCount(s.yearlyCounts) == |ts|
  }

  /** One entry per observed year, in ascending key order, each holding the
      number of timestamps in that year; `total_years` is the number of
      distinct years. */
  ghost predicate CountsByYear(s: Stats, ts: seq<string>)
  {
    && StrictlyAscending(KeysOf(s.yearlyCounts))
    && (forall i :: 0 <= i < |s.yearlyCounts| ==>
          s.yearlyCounts[i].count == CountYear(ts, s.yearlyCounts[i].year) > 0)
    && (forall k :: 0 <= k < |ts| ==> YearKey(ts[k]) in KeysOf(s.yearlyCounts))
    && s.totalYears == |s.yearlyCounts| == |ObservedYears(ts)|
  }

  /** The missing years are ascending, lie between the first and the last
      observed year, and split that span with the observed years: each year
      of the span is in exactly one of the two. */
  ghost predicate GapsInSpan(s: Stats, ts: seq<string>)
    requires |ts| > 0 && AllHaveYear(ts)
  {
    && StrictlyAscending(s.missingYears)
    && (forall i :: 0 <= i < |s.missingYears| ==>
          IsYear(s.missingYears[i])
          && FirstYear(ts) <= YearValue(s.missingYears[i]) <= LastYear(ts)
          && s.missingYears[i] !in KeysOf(s.yearlyCounts))
    && (forall n :: FirstYear(ts) <= n <= LastYear(ts) ==>
          (YearText(n) in KeysOf(s.yearlyCounts) <==> YearText(n) !in s.missingYears))
  }

  /** First and last archived dates are the formatted least and greatest
      timestamps. */
  ghost predicate Extremes(s: Stats, ts: seq<string>)
    requires |ts| > 0
  {
    s.firstSnapshot == FormatTimestamp(Earliest(ts)) && s.lastSnapshot == FormatTimestamp(Latest(ts))
  }

  ghost predicate Summarizes(s: Stats, ts: seq<string>)
    requires |ts| > 0 && AllHaveYear(ts)
  {
    CountsConserved(s, ts) && CountsByYear(s, ts) && GapsInSpan(s, ts) && Extremes(s, ts)
  }

  lemma ConservedHolds(ts: seq<string>, s: Stats)
    requires |ts| > 0 && AllHaveYear(ts)
    requires s.totalSnapshots == |ts|
    requires s.yearlyCounts == CountsInRange(Tally(ts), FirstYear(ts), LastYear(ts))
    ensures CountsConserved(s, ts)
  {
    TallyRangeSum(ts, FirstYear(ts), LastYear(ts));
    RangeCountAll(ts, FirstYear(ts), LastYear(ts));
  }

  lemma CountsMatchTally(ts: seq<string>, s: Stats)
    requires |ts| > 0 && AllHaveYear(ts)
    requires s.yearlyCounts == CountsInRange(Tally(ts), FirstYear(ts), LastYear(ts))
    ensures forall i :: 0 <= i < |s.yearlyCounts| ==>
      s.yearlyCounts[i].count == CountYear(ts, s.yearlyCounts[i].year) > 0
  {
  }

  lemma EveryYearListed(ts: seq<string>, s: Stats)
    requires |ts| > 0 && AllHaveYear(ts)
    requires s.yearlyCounts == CountsInRange(Tally(ts), FirstYear(ts), LastYear(ts))
    ensures forall k :: 0 <= k < |ts| ==> YearKey(ts[k]) in KeysOf(s.yearlyCounts)
  {
    TallyKeys(ts);
    CountsInRangeComplete(Tally(ts), FirstYear(ts), LastYear(ts));
    forall k | 0 <= k < |ts|
      ensures YearKey(ts[k]) in KeysOf(s.yearlyCounts)
    {
      var y := YearKey(ts[k]);
      assert y in ObservedYears(ts);
      assert YearText(YearValue(y)) == y;
    }
  }

  lemma CountKeysAreTallyKeys(ts: seq<string>, counts: seq<YearCount>)
    requires |ts| > 0 && AllHaveYear(ts)
    requires counts == CountsInRange(Tally(ts), FirstYear(ts), LastYear(ts))
    ensures (set x | x in KeysOf(counts)) == Tally(ts).Keys
  {
    var m, keys := Tally(ts), KeysOf(counts);
    TallyKeys(ts);
    CountsInRangeComplete(m, FirstYear(ts), LastYear(ts));
    forall y | y in m
      ensures y in keys
    {
      assert y in ObservedYears(ts);
      assert YearText(YearValue(y)) == y;
    }
  }

  lemma TotalYearsDistinct(ts: seq<string>, s: Stats)
    requires |ts| > 0 && AllHaveYear(ts)
    requires s.yearlyCounts == CountsInRange(Tally(ts), FirstYear(ts), LastYear(ts))
    requires s.totalYears == |Tally(ts)|
    requires StrictlyAscending(KeysOf(s.yearlyCounts))
    ensures s.totalYears == |s.yearlyCounts| == |ObservedYears(ts)|
  {
    TallyKeys(ts);
    AscendingCardinality(KeysOf(s.yearlyCounts));
    CountKeysAreTallyKeys(ts, s.yearlyCounts);
    assert |Tally(ts)| == |Tally(ts).Keys|;
  }

  lemma CountsByYearHolds(ts: seq<string>, s: Stats)
    requires |ts| > 0 && AllHaveYear(ts)
    requires s.yearlyCounts == CountsInRange(Tally(ts), FirstYear(ts), LastYear(ts))
    requires s.totalYears == |Tally(ts)|
    ensures CountsByYear(s, ts)
  {
    AscendingByValue(KeysOf(s.yearlyCounts));
    CountsMatchTally(ts, s);
    EveryYearListed(ts, s);
    TotalYearsDistinct(ts, s);
  }

  /** A year outside the map is not the year of any item drawn from it. */
  lemma AbsentKeysNotListed(m: map<string, nat>, cs: seq<YearCount>, ms: seq<string>)
    requires forall j :: 0 <= j < |cs| ==> cs[j].year in m
    requires forall i :: 0 <= i < |ms| ==> ms[i] !in m
    ensures forall i :: 0 <= i < |ms| ==> ms[i] !in KeysOf(cs)
  {
    var keys := KeysOf(cs);
    forall i | 0 <= i < |ms|
      ensures ms[i] !in keys
    {
      forall j | 0 <= j < |keys|
        ensures keys[j] != ms[i]
      {
        assert keys[j] == cs[j].year;
      }
    }
  }

  lemma MissingInSpan(ts: seq<string>, s: Stats)
    requires |ts| > 0 && AllHaveYear(ts)
    requires s.yearlyCounts == CountsInRange(Tally(ts), FirstYear(ts), LastYear(ts))
    requires s.missingYears == MissingInRange(Tally(ts), FirstYear(ts), LastYear(ts))
    ensures forall i :: 0 <= i < |s.missingYears| ==>
      IsYear(s.missingYears[i])
      && FirstYear(ts) <= YearValue(s.missingYears[i]) <= LastYear(ts)
      && s.missingYears[i] !in KeysOf(s.yearlyCounts)
  {
    AbsentKeysNotListed(Tally(ts), s.yearlyCounts, s.missingYears);
  }

  /** Over `lo..hi`, the listed years and the missing years split the span:
      each year is in exactly one of the two. */
  lemma SpanSplit(m: map<string, nat>, lo: int, hi: int)
    requires 1000 <= lo && hi <= 9999 && lo <= hi + 1
    ensures forall n :: lo <= n <= hi ==>
      (YearText(n) in KeysOf(CountsInRange(m, lo, hi)) <==> YearText(n) !in MissingInRange(m, lo, hi))
  {
    var keys, gaps := KeysOf(CountsInRange(m, lo, hi)), MissingInRange(m, lo, hi);
    CountsInRangeComplete(m, lo, hi);
    MissingInRangeComplete(m, lo, hi);
    assert forall j :: 0 <= j < |keys| ==> keys[j] in m;
    forall n | lo <= n <= hi
      ensures YearText(n) in keys <==> YearText(n) !in gaps
    {
      if YearText(n) in m {
        assert YearText(n) in keys;
      } else {
        assert YearText(n) in gaps;
      }
    }
  }

  lemma SpanPartition(ts: seq<string>, s: Stats)
    requires |ts| > 0 && AllHaveYear(ts)
    requires s.yearlyCounts == CountsInRange(Tally(ts), FirstYear(ts), LastYear(ts))
    requires s.missingYears == MissingInRange(Tally(ts), FirstYear(ts), LastYear(ts))
    ensures forall n :: FirstYear(ts) <= n <= LastYear(ts) ==>
      (YearText(n) in KeysOf(s.yearlyCounts) <==> YearText(n) !in s.missingYears)
  {
    SpanSplit(Tally(ts), FirstYear(ts), LastYear(ts));
  }

  lemma GapsHold(ts: seq<string>, s: Stats)
    requires |ts| > 0 && AllHaveYear(ts)
    requires s.yearlyCounts == CountsInRange(Tally(ts), FirstYear(ts), LastYear(ts))
    requires s.missingYears == MissingInRange(Tally(ts), FirstYear(ts), LastYear(ts))
    ensures GapsInSpan(s, ts)
  {
    AscendingByValue(s.missingYears);
    MissingInSpan(ts, s);
    SpanPartition(ts, s);
  }

  /** The statistics `analyze` assembles for a non-empty timestamp list. */
  function StatsOf(ts: seq<string>): (s: Stats)
    requires |ts| > 0 && AllHaveYear(ts)
    ensures Summarizes(s, ts)
  {
    var m := Tally(ts);
    var lo, hi := FirstYear(ts), LastYear(ts);
    var s := Stats(|ts|, CountsInRange(m, lo, hi), FormatTimestamp(Earliest(ts)), FormatTimestamp(Latest(ts)),
                   MissingInRange(m, lo, hi), |m|);
    ConservedHolds(ts, s);
    CountsByYearHolds(ts, s);
    GapsHold(ts, s);
    s
  }

  /** `analyze()`: `None` for an empty snapshot list, the statistics
      otherwise. */
  function Analyze(snapshots: seq<Row>): (r: Option<Stats>)
    requires ValidSnapshots(snapshots)
    ensures r.None? <==> |snapshots| == 0
    ensures r.Some? ==> Summarizes(r.value, Timestamps(snapshots))
  {
    if |snapshots| == 0 then None else Some(StatsOf(Timestamps(snapshots)))
  }

  /** The first raw timestamp never sorts after the last. */
  lemma EarliestNotAfterLatest(ts: seq<string>)
    requires |ts| > 0
    ensures LexLessEq(Earliest(ts), Latest(ts))
  {
    var k :| 0 <= k < |ts| && ts[k] == Latest(ts);
  }

  /** `min(all_years)` is the text of the first year, so `int()` of it is
      the first year. */
  lemma FirstYearIsMinKey(ts: seq<string>)
    requires |ts| > 0 && AllHaveYear(ts)
    ensures YearText(FirstYear(ts)) in ObservedYears(ts)
    ensures forall y :: y in ObservedYears(ts) ==> LexLessEq(YearText(FirstYear(ts)), y)
  {
    var lo := FirstYear(ts);
    ValueOfText(lo);
    var i :| 0 <= i < |ts| && YearOf(ts[i]) == lo;
    TextOfValue(YearKey(ts[i]));
    assert YearKey(ts[i]) in ObservedYears(ts);
    forall y | y in ObservedYears(ts)
      ensures LexLessEq(YearText(lo), y)
    {
      var k :| 0 <= k < |ts| && YearKey(ts[k]) == y;
      assert lo <= YearOf(ts[k]);
      YearOrderEq(YearText(lo), y);
    }
  }

  /** `max(all_years)` is the text of the last year. */
  lemma LastYearIsMaxKey(ts: seq<string>)
    requires |ts| > 0 && AllHaveYear(ts)
    ensures YearText(LastYear(ts)) in ObservedYears(ts)
    ensures forall y :: y in ObservedYears(ts) ==> LexLessEq(y, YearText(LastYear(ts)))
  {
    var hi := LastYear(ts);
    ValueOfText(hi);
    var j :| 0 <= j < |ts| && YearOf(ts[j]) == hi;
    TextOfValue(YearKey(ts[j]));
    assert YearKey(ts[j]) in ObservedYears(ts);
    forall y | y in ObservedYears(ts)
      ensures LexLessEq(y, YearText(hi))
    {
      var k :| 0 <= k < |ts| && YearKey(ts[k]) == y;
      assert YearOf(ts[k]) <= hi;
      YearOrderEq(y, YearText(hi));
    }
  }

  /** The first archived timestamp lies in the first year of the yearly
      counts. */
  lemma EarliestInFirstYear(ts: seq<string>)
    requires |ts| > 0 && AllHaveYear(ts)
    ensures YearKey(Earliest(ts)) == YearText(FirstYear(ts))
  {
    var lo, e := FirstYear(ts), Earliest(ts);
    var i :| 0 <= i < |ts| && YearOf(ts[i]) == lo;
    var a :| 0 <= a < |ts| && ts[a] == e;
    assert YearKey(e) == e[..4] && YearKey(ts[i]) == ts[i][..4];
    LexLessEqPrefix(e, ts[i], 4);
    YearOrder(YearKey(e), YearKey(ts[i]));
    assert YearOf(e) <= lo;
    assert lo <= YearOf(ts[a]);
    TextOfValue(YearKey(e));
  }

  /** The last archived timestamp lies in the last year of the yearly
      counts. */
  lemma LatestInLastYear(ts: seq<string>)
    requires |ts| > 0 && AllHaveYear(ts)
    ensures YearKey(Latest(ts)) == YearText(LastYear(ts))
  {
    var hi, l := LastYear(ts), Latest(ts);
    var j :| 0 <= j < |ts| && YearOf(ts[j]) == hi;
    var b :| 0 <= b < |ts| && ts[b] == l;
    assert YearKey(l) == l[..4] && YearKey(ts[j]) == ts[j][..4];
    LexLessEqPrefix(ts[j], l, 4);
    YearOrder(YearKey(ts[j]), YearKey(l));
    assert hi <= YearOf(l);
    assert YearOf(ts[b]) <= hi;
    TextOfValue(YearKey(l));
  }

  /** Observed and missing years together fill the span exactly. */
  /** One step of the scan over the year range. */
  lemma RangeStep(m: map<string, nat>, lo: int, hi: int)
    requires 1000 <= lo <= hi <= 9999
    ensures var y := YearText(lo);
      CountsInRange(m, lo, hi) == (if y in m then [YearCount(y, m[y])] else []) + CountsInRange(m, lo + 1, hi)
    ensures var y := YearText(lo);
      MissingInRange(m, lo, hi) == (if y in m then [] else [y]) + MissingInRange(m, lo + 1, hi)
  {
  }

  lemma SpanStep(m: map<string, nat>, lo: int, hi: int)
    requires 1000 <= lo <= hi <= 9999
    requires |CountsInRange(m, lo + 1, hi)| + |MissingInRange(m, lo + 1, hi)| == hi - lo
    ensures |CountsInRange(m, lo, hi)| + |MissingInRange(m, lo, hi)| == hi + 1 - lo
  {
    RangeStep(m, lo, hi);
  }

  lemma {:induction false} SpanSize(m: map<string, nat>, lo: int, hi: int)
    requires 1000 <= lo && hi <= 9999 && lo <= hi + 1
    ensures |CountsInRange(m, lo, hi)| + |MissingInRange(m, lo, hi)| == hi + 1 - lo
    decreases hi + 1 - lo
  {
    if lo <= hi {
      SpanSize(m, lo + 1, hi);
      SpanStep(m, lo, hi);
    }
  }

  /** `total_years` plus the number of missing years is the number of years
      from the first to the last observed year. */
  lemma YearsFillSpan(ts: seq<string>)
    requires |ts| > 0 && AllHaveYear(ts)
    ensures StatsOf(ts).totalYears + |StatsOf(ts).missingYears| == LastYear(ts) - FirstYear(ts) + 1
  {
    SpanSize(Tally(ts), FirstYear(ts), LastYear(ts));
  }
}
