/** A worked example: three snapshots, two in 2020 and one in 2022, carried
    through `analyze` and `calculate_health_score`.

    The lemmas about fixed values take those values as parameters bound by
    `requires` (`m == SampleCounts`, `lo == 2020`), and small steps such as
    `PairTable` are stated on their own: this keeps the solver from
    unfolding every definition on the constants at once. */
module Walkthrough {
  import opened Wrappers
  import opened Text
  import opened Decimal
  import opened Years
  import opened Dates
  import opened Fetch
  import opened Coverage
  import opened Health

  const Sample: seq<Row> := [["20200101"], ["20200615"], ["20220101"]]

  const SampleStats: Stats :=
    Stats(3, [YearCount("2020", 2), YearCount("2022", 1)], "2020-01-01", "2022-01-01", ["2021"], 2)

  lemma SampleYears()
    ensures IsYear("2020") && YearValue("2020") == 2020 && YearText(2020) == "2020"
    ensures IsYear("2021") && YearValue("2021") == 2021 && YearText(2021) == "2021"
    ensures IsYear("2022") && YearValue("2022") == 2022 && YearText(2022) == "2022"
  {
    FourDigitValue("2020");
    FourDigitValue("2021");
    FourDigitValue("2022");
    TextOfValue("2020");
    TextOfValue("2021");
    TextOfValue("2022");
  }

  lemma SampleKeys(ts: seq<string>)
    requires ts == ["20200101", "20200615", "20220101"]
    ensures YearKey(ts[0]) == "2020" && YearKey(ts[1]) == "2020" && YearKey(ts[2]) == "2022"
    ensures AllHaveYear(ts)
    ensures YearOf(ts[0]) == 2020 && YearOf(ts[1]) == 2020 && YearOf(ts[2]) == 2022
  {
    SampleYears();
  }

  lemma SampleCount(ts: seq<string>, y: string)
    requires ts == ["20200101", "20200615", "20220101"]
    ensures CountYear(ts, y) == (if y == "2020" then 2 else if y == "2022" then 1 else 0)
  {
    SampleKeys(ts);
    var t2, t1, t0 := ts[..2], ts[..1], ts[..0];
    assert t2[..1] == t1 && t1[..0] == t0;
    assert t2[1] == ts[1] && t1[0] == ts[0];
    assert CountYear(t0, y) == 0;
    assert CountYear(t1, y) == (if YearKey(ts[0]) == y then 1 else 0);
    assert CountYear(t2, y) == CountYear(t1, y) + (if YearKey(ts[1]) == y then 1 else 0);
    assert CountYear(ts, y) == CountYear(t2, y) + (if YearKey(ts[2]) == y then 1 else 0);
  }

  lemma SampleTally(ts: seq<string>)
    requires ts == ["20200101", "20200615", "20220101"]
    ensures Tally(ts) == SampleCounts
  {
    var m := Tally(ts);
    forall y
      ensures y in m <==> y == "2020" || y == "2022"
      ensures y in m ==> m[y] == (if y == "2020" then 2 else 1)
    {
      SampleCount(ts, y);
    }
    assert m.Keys == {"2020", "2022"};
  }

  lemma SampleSpan(ts: seq<string>)
    requires ts == ["20200101", "20200615", "20220101"]
    ensures AllHaveYear(ts) && FirstYear(ts) == 2020 && LastYear(ts) == 2022
  {
    SampleKeys(ts);
  }

  const SampleCounts: map<string, nat> := map["2020" := 2, "2022" := 1]

  lemma SampleYearTexts(lo: int)
    requires lo == 2020
    ensures YearText(lo) == "2020" && YearText(lo + 1) == "2021" && YearText(lo + 2) == "2022"
  {
    SampleYears();
  }

  lemma SampleYearTableFrom2022(m: map<string, nat>, lo: int, hi: int)
    requires m == SampleCounts && lo == 2020 && hi == 2022
    ensures CountsInRange(m, lo + 2, hi) == [YearCount("2022", 1)]
  {
    SampleYearTexts(lo);
    RangeStep(m, lo + 2, hi);
    assert "2022" in m && m["2022"] == 1;
  }

  lemma SampleYearTableFrom2021(m: map<string, nat>, lo: int, hi: int)
    requires m == SampleCounts && lo == 2020 && hi == 2022
    ensures CountsInRange(m, lo + 1, hi) == [YearCount("2022", 1)]
  {
    SampleYearTexts(lo);
    SampleYearTableFrom2022(m, lo, hi);
    RangeStep(m, lo + 1, hi);
    assert "2021" !in m;
  }

  /** The yearly counts of the span 2020..2022. */
  lemma SampleYearTable(m: map<string, nat>, lo: int, hi: int)
    requires m == SampleCounts && lo == 2020 && hi == 2022
    ensures CountsInRange(m, lo, hi) == [YearCount("2020", 2), YearCount("2022", 1)]
  {
    SampleYearTexts(lo);
    SampleYearTableFrom2021(m, lo, hi);
    RangeStep(m, lo, hi);
    assert "2020" in m && m["2020"] == 2;
    PairTable(YearCount("2020", 2), YearCount("2022", 1));
  }

  /** Two one-element tables joined in order. */
  lemma PairTable(a: YearCount, b: YearCount)
    ensures [a] + [b] == [a, b]
  {
  }

  /** The missing years of the span 2020..2022. */
  lemma SampleGapTable(m: map<string, nat>, lo: int, hi: int)
    requires m == SampleCounts && lo == 2020 && hi == 2022
    ensures MissingInRange(m, lo, hi) == ["2021"]
  {
    SampleYearTexts(lo);
    RangeStep(m, lo + 2, hi);
    assert "2022" in m;
    assert MissingInRange(m, lo + 2, hi) == [];
    RangeStep(m, lo + 1, hi);
    assert "2021" !in m;
    assert MissingInRange(m, lo + 1, hi) == ["2021"];
    RangeStep(m, lo, hi);
    assert "2020" in m;
  }

  lemma SampleExtremes(ts: seq<string>)
    requires ts == ["20200101", "20200615", "20220101"]
    ensures Earliest(ts) == ts[0] && Latest(ts) == ts[2]
  {
    LexLessAt(ts[0], ts[1], 5);
    LexLessAt(ts[0], ts[2], 3);
    LexLessAt(ts[1], ts[2], 3);
    LexLessAsymmetric(ts[0], ts[1]);
    LexLessAsymmetric(ts[0], ts[2]);
    LexLessAsymmetric(ts[1], ts[2]);
    assert LexLessEq(Earliest(ts), ts[0]);
    assert LexLessEq(ts[2], Latest(ts));
  }

  /** The first of January of a year formats as `YYYY-01-01`. */
  lemma NewYearsDay(t: string, year: string)
    requires IsYear(year) && t == year + "0101"
    ensures FormatTimestamp(t) == year + "-01-01"
  {
    assert t[..4] == year && t[4..6] == "01" && t[6..8] == "01";
    assert AllDigits(t[..8]);
    TwoDigitValue("01");
    assert Value(t[..4]) == YearValue(year);
    assert IsValidDate(Date(Value(t[..4]), Value(t[4..6]), Value(t[6..8])));
    FormatEightDigits(t);
  }

  lemma SampleDates(first: string, last: string)
    requires first == "20200101" && last == "20220101"
    ensures FormatTimestamp(first) == "2020-01-01"
    ensures FormatTimestamp(last) == "2022-01-01"
  {
    assert IsYear("2020") && IsYear("2022");
    NewYearsDay(first, "2020");
    NewYearsDay(last, "2022");
  }

  lemma SampleCountsSize()
    ensures |SampleCounts| == 2
  {
    assert "2020" != "2022" by {
      assert "2020"[3] != "2022"[3];
    }
    assert SampleCounts.Keys == {"2020", "2022"};
    assert |SampleCounts.Keys| == 2;
  }

  lemma SampleStatsOf(ts: seq<string>)
    requires ts == ["20200101", "20200615", "20220101"]
    ensures AllHaveYear(ts) && StatsOf(ts) == SampleStats
  {
    SampleKeys(ts);
    SampleTally(ts);
    SampleSpan(ts);
    SampleCountsSize();
    var m, lo, hi := Tally(ts), FirstYear(ts), LastYear(ts);
    SampleYearTable(m, lo, hi);
    SampleGapTable(m, lo, hi);
    SampleExtremes(ts);
    SampleDates(ts[0], ts[2]);
    assert CountsInRange(m, lo, hi) == SampleStats.yearlyCounts;
    assert MissingInRange(m, lo, hi) == SampleStats.missingYears;
    assert FormatTimestamp(Earliest(ts)) == SampleStats.firstSnapshot;
    assert FormatTimestamp(Latest(ts)) == SampleStats.lastSnapshot;
  }

  /** `analyze()` on the worked example yields its statistics. */
  lemma SampleAnalysis()
    ensures ValidSnapshots(Sample) && Analyze(Sample) == Some(SampleStats)
  {
    var ts := ["20200101", "20200615", "20220101"];
    SampleKeys(ts);
    assert ValidSnapshots(Sample);
    assert Timestamps(Sample) == ts;
    SampleStatsOf(ts);
  }

  lemma SampleStatsHealth()
    ensures HealthScore(Some(SampleStats)) == 60
  {
    assert SampleStats.lastSnapshot[..3] == "202";
    assert Score(2, 1, true) == 60;
  }

  /** One missing year of two, plus the bonus for a `202` date: 60, which
      is labelled `Fair`. */
  lemma SampleHealth()
    ensures ValidSnapshots(Sample) && HealthScore(Analyze(Sample)) == 60
    ensures HealthLabel(HealthScore(Analyze(Sample))) == "Fair"
  {
    SampleAnalysis();
    SampleStatsHealth();
  }
}
