/** `calculate_health_score` and the health label of the report. */
module Health {
  import opened Wrappers
  import opened Arith
  import opened Text
  import opened Years
  import opened Dates
  import opened Fetch
  import opened Coverage

  /** Python's `int(a / b)` for a positive divisor: the quotient truncated
      toward zero. */
  function TruncDiv(a: int, b: int): (q: int)
    requires b > 0
    ensures a >= 0 ==> q * b <= a < (q + 1) * b
    ensures a < 0 ==> (q - 1) * b < a <= q * b
  {
    if a >= 0 then a / b else -((-a) / b)
  }

  /** A whole multiple divides back exactly. */
  lemma QuotientExact(k: int, t: int)
    requires t > 0 && k >= 0
    ensures TruncDiv(k * t, t) == k
  {
    var q := TruncDiv(k * t, t);
    MulLeBound(q, t, k);
    MulLtBound(k, t, q + 1);
  }

  /** The quotient of a value in `[0, 100 * t]` by `t` lies in `[0, 100]`. */
  lemma QuotientPercent(a: int, t: int)
    requires t > 0 && 0 <= a <= 100 * t
    ensures 0 <= TruncDiv(a, t) <= 100
  {
    var q := TruncDiv(a, t);
    MulLeBound(q, t, 100);
    assert 0 * t < (q + 1) * t;
    MulLeBound(0, t, q + 1);
  }

  /** No dividend above `100 * t` gives a quotient above 100. */
  lemma QuotientAtMost(a: int, t: int)
    requires t > 0 && a <= 100 * t
    ensures TruncDiv(a, t) <= 100
  {
    var q := TruncDiv(a, t);
    if a >= 0 {
      MulLeBound(q, t, 100);
    } else {
      MulLtBound(q - 1, t, 0);
    }
  }

  /** The score from `total_years`, the number of missing years and whether
      the last archived date starts with `202`, in exact arithmetic:
      `(total - missing) / total * 100`, plus the bonus of 10 capped at 100,
      truncated by `int()`. Nothing clamps it from below. */
  function Score(totalYears: nat, missingCount: nat, recent: bool): (h: int)
    ensures h <= 100
    ensures totalYears == 0 ==> h == 0
    ensures totalYears > 0 && missingCount == 0 ==> h == 100
  {
    if totalYears == 0 then 0
    else
      var t := totalYears;
      var scaled := (t - missingCount) * 100;
      if recent then
        if scaled + 10 * t >= 100 * t then 100
        else
          QuotientAtMost(scaled + 10 * t, t);
          TruncDiv(scaled + 10 * t, t)
      else
        QuotientAtMost(scaled, t);
        if missingCount == 0 then QuotientExact(100, t); TruncDiv(scaled, t) else TruncDiv(scaled, t)
  }

  /** A truncated quotient is negative exactly when the dividend is at most
      minus the divisor. */
  lemma TruncDivNegative(a: int, t: int)
    requires t > 0
    ensures TruncDiv(a, t) < 0 <==> a <= -t
  {
    var q := TruncDiv(a, t);
    if a >= 0 {
      MulLtBound(0, t, q + 1);
    } else if a <= -t {
      MulLtBound(q - 1, t, -1);
    } else {
      MulLtBound(-1, t, q);
    }
  }

  /** With no more missing years than years with snapshots the score is
      never negative. */
  lemma ScoreNonNegative(totalYears: nat, missingCount: nat, recent: bool)
    requires missingCount <= totalYears
    ensures 0 <= Score(totalYears, missingCount, recent)
  {
    if totalYears > 0 {
      var t := totalYears;
      var scaled := (t - missingCount) * 100;
      if recent {
        if scaled + 10 * t < 100 * t {
          QuotientPercent(scaled + 10 * t, t);
        }
      } else {
        QuotientPercent(scaled, t);
      }
    }
  }

  /** Exactly when the score drops below zero: the missing years outweigh
      the observed ones by at least one percent of `total_years` (after the
      bonus, when it applies). More missing years than observed ones is not
      enough on its own. */
  lemma ScoreNegative(totalYears: nat, missingCount: nat, recent: bool)
    ensures Score(totalYears, missingCount, recent) < 0 <==>
      totalYears > 0
      && (if recent then (missingCount - totalYears) * 100 - 10 * totalYears >= totalYears
          else (missingCount - totalYears) * 100 >= totalYears)
  {
    if totalYears > 0 {
      var t := totalYears;
      var scaled := (t - missingCount) * 100;
      if recent {
        if scaled + 10 * t < 100 * t {
          TruncDivNegative(scaled + 10 * t, t);
        }
      } else {
        TruncDivNegative(scaled, t);
      }
    }
  }

  /** Without the bonus, the score is the coverage percentage rounded
      toward zero. */
  lemma ScoreIsTruncatedCoverage(totalYears: nat, missingCount: nat)
    requires 0 < totalYears && missingCount <= totalYears
    ensures var h := Score(totalYears, missingCount, false);
      h * totalYears <= (totalYears - missingCount) * 100 < (h + 1) * totalYears
  {
  }

  /** With the bonus, the score is the rate plus 10 rounded down, or 100
      once that reaches 100. */
  lemma ScoreWithBonus(totalYears: nat, missingCount: nat)
    requires 0 < totalYears && missingCount <= totalYears
    ensures var t := totalYears;
      var a := (t - missingCount) * 100 + 10 * t;
      var h := Score(t, missingCount, true);
      (a >= 100 * t ==> h == 100) && (a < 100 * t ==> h * t <= a < (h + 1) * t)
  {
  }

  /** Truncation toward zero keeps the order of dividends. */
  lemma TruncDivMonotone(a: int, b: int, t: int)
    requires t > 0 && a <= b
    ensures TruncDiv(a, t) <= TruncDiv(b, t)
  {
    var p, q := TruncDiv(a, t), TruncDiv(b, t);
    if a >= 0 {
      MulLtBound(p, t, q + 1);
    } else if b < 0 {
      MulLtBound(p - 1, t, q);
    } else {
      MulLtBound(p - 1, t, 0);
      MulLtBound(0, t, q + 1);
    }
  }

  /** The bonus never lowers the score. */
  lemma BonusNeverLowers(totalYears: nat, missingCount: nat)
    ensures Score(totalYears, missingCount, false) <= Score(totalYears, missingCount, true)
  {
    if totalYears > 0 {
      var t := totalYears;
      var scaled := (t - missingCount) * 100;
      if scaled + 10 * t < 100 * t {
        TruncDivMonotone(scaled, scaled + 10 * t, t);
      }
    }
  }

  /** Below the cap, on an archive with no more gaps than years, the bonus
      adds exactly 10 points to the score. */
  lemma BonusAddsTen(totalYears: nat, missingCount: nat)
    requires 0 < totalYears && missingCount <= totalYears
    requires (totalYears - missingCount) * 100 + 10 * totalYears < 100 * totalYears
    ensures Score(totalYears, missingCount, true) == Score(totalYears, missingCount, false) + 10
  {
    var t := totalYears;
    var a := (t - missingCount) * 100;
    var q, r := TruncDiv(a, t), TruncDiv(a + 10 * t, t);
    assert (q + 10) * t == q * t + 10 * t && (q + 11) * t == (q + 1) * t + 10 * t;
    MulLtBound(r, t, q + 11);
    MulLtBound(q + 10, t, r + 1);
  }

  /** The bonus is added to the rate before `int()` truncates it, so on a
      negative rate it gains less than 10 points: 40 years with 41 missing
      score -2 without the bonus and 7 with it. */
  lemma BonusBeforeTruncation()
    ensures Score(40, 41, false) == -2 && Score(40, 41, true) == 7
  {
    assert TruncDiv(-100, 40) == -2;
    assert TruncDiv(300, 40) == 7;
  }

  /** `calculate_health_score(stats)`: zero without statistics, otherwise
      the score of `total_years` and the missing years, with the bonus when
      the last archived date starts with `202`. */
  function HealthScore(stats: Option<Stats>): (h: int)
    ensures h <= 100
    ensures stats.None? ==> h == 0
    ensures stats.Some? && stats.value.totalYears > 0 && |stats.value.missingYears| == 0 ==> h == 100
  {
    match stats
    case None => 0
    case Some(s) => Score(s.totalYears, |s.missingYears|, StartsWith(s.lastSnapshot, "202"))
  }

  /** The score of analysed snapshots, in terms of the raw timestamps: the
      distinct years, the years between the first and the last that have no
      snapshot, and whether the greatest raw timestamp starts with `202`. */
  lemma AnalyzedHealth(snapshots: seq<Row>)
    requires ValidSnapshots(snapshots) && |snapshots| > 0
    ensures var ts := Timestamps(snapshots);
      var observed := |ObservedYears(ts)|;
      observed <= LastYear(ts) - FirstYear(ts) + 1
      && HealthScore(Analyze(snapshots))
      == Score(observed, LastYear(ts) - FirstYear(ts) + 1 - observed, StartsWith(Latest(ts), "202"))
  {
    var ts := Timestamps(snapshots);
    var s := StatsOf(ts);
    assert Analyze(snapshots) == Some(s);
    assert CountsByYear(s, ts);
    assert s.totalYears == |ObservedYears(ts)|;
    YearsFillSpan(ts);
    assert |s.missingYears| == LastYear(ts) - FirstYear(ts) + 1 - s.totalYears;
    assert Extremes(s, ts);
    FormatKeepsDecadePrefix(Latest(ts));
    assert StartsWith(s.lastSnapshot, "202") == StartsWith(Latest(ts), "202");
  }

  /** One snapshot in 2000 and one in 2010. */
  const TwoDistantYears: seq<Row> := [["20000101"], ["20100101"]]

  lemma TwoDistantYearKeys()
    ensures HasYear("20000101") && YearOf("20000101") == 2000
    ensures HasYear("20100101") && YearOf("20100101") == 2010
  {
    assert YearKey("20000101") == "2000" && YearKey("20100101") == "2010";
    FourDigitValue("2000");
    FourDigitValue("2010");
  }

  lemma TwoDistantYearSpan(ts: seq<string>)
    requires ts == ["20000101", "20100101"]
    ensures AllHaveYear(ts)
    ensures |ObservedYears(ts)| == 2 && FirstYear(ts) == 2000 && LastYear(ts) == 2010
  {
    TwoDistantYearKeys();
    assert YearKey(ts[0]) == "2000" && YearKey(ts[1]) == "2010";
    assert "2000" in ObservedYears(ts) && "2010" in ObservedYears(ts);
    assert ObservedYears(ts) <= {"2000", "2010"};
    assert ObservedYears(ts) == {"2000", "2010"};
    assert ts[..1] == ["20000101"];
  }

  lemma TwoDistantYearsNoBonus(ts: seq<string>)
    requires ts == ["20000101", "20100101"]
    ensures !StartsWith(Latest(ts), "202")
  {
    assert Latest(ts) == ts[0] || Latest(ts) == ts[1];
    assert ts[0][2] != '2' && ts[1][2] != '2';
  }

  /** Years 2000 and 2010 alone: two observed years against nine missing
      ones, no bonus, and a score of -350. */
  lemma NegativeScoreWitness()
    ensures ValidSnapshots(TwoDistantYears) && HealthScore(Analyze(TwoDistantYears)) == -350
  {
    TwoDistantYearKeys();
    assert ValidSnapshots(TwoDistantYears);
    var ts := Timestamps(TwoDistantYears);
    assert ts == ["20000101", "20100101"];
    TwoDistantYearSpan(ts);
    TwoDistantYearsNoBonus(ts);
    AnalyzedHealth(TwoDistantYears);
    assert HealthScore(Analyze(TwoDistantYears)) == Score(2, 9, false);
    assert TruncDiv(-700, 2) == -350;
  }

  /** The label next to the score: `Excellent` from 90, `Good` from 70,
      `Fair` from 50, `Limited` below. */
  function HealthLabel(h: int): (verdict: string)
    ensures verdict == "Excellent" <==> 90 <= h
    ensures verdict == "Good" <==> 70 <= h < 90
    ensures verdict == "Fair" <==> 50 <= h < 70
    ensures verdict == "Limited" <==> h < 50
  {
    if h >= 90 then "Excellent" else if h >= 70 then "Good" else if h >= 50 then "Fair" else "Limited"
  }

  /** Ranks the labels from `Limited` (0) to `Excellent` (3). */
  function LabelRank(verdict: string): nat
  {
    if verdict == "Excellent" then 3 else if verdict == "Good" then 2 else if verdict == "Fair" then 1 else 0
  }

  /** A higher score never earns a lower label. */
  lemma LabelMonotone(h1: int, h2: int)
    requires h1 <= h2
    ensures LabelRank(HealthLabel(h1)) <= LabelRank(HealthLabel(h2))
  {
  }

  /** The score with the lower clamp it evidently lacks: never below zero,
      and equal to `HealthScore` whenever that is not negative. */
  function ClampedHealthScore(stats: Option<Stats>): (h: int)
    ensures 0 <= h <= 100
    ensures HealthScore(stats) >= 0 ==> h == HealthScore(stats)
    ensures HealthScore(stats) < 0 ==> h == 0
  {
    var raw := HealthScore(stats);
    if raw < 0 then 0 else raw
  }

  /** Clamping changes no label: every negative score is already `Limited`. */
  lemma ClampKeepsLabel(stats: Option<Stats>)
    ensures HealthLabel(ClampedHealthScore(stats)) == HealthLabel(HealthScore(stats))
  {
  }

  /** Analysed snapshots whose missing years do not outnumber the observed
      ones score the same with or without the clamp. */
  lemma ClampInertOnDenseArchives(snapshots: seq<Row>)
    requires ValidSnapshots(snapshots) && |snapshots| > 0
    requires var s := Analyze(snapshots).value; |s.missingYears| <= s.totalYears
    ensures ClampedHealthScore(Analyze(snapshots)) == HealthScore(Analyze(snapshots))
  {
    var s := Analyze(snapshots).value;
    ScoreNonNegative(s.totalYears, |s.missingYears|, StartsWith(s.lastSnapshot, "202"));
  }

  /** The corrected score of the two-year archive above is zero. */
  lemma ClampedWitness()
    ensures ValidSnapshots(TwoDistantYears) && ClampedHealthScore(Analyze(TwoDistantYears)) == 0
  {
    NegativeScoreWitness();
  }
}
