/** The arithmetic behind the coverage part of `print_report`: the bar drawn
    for each year, which years and missing years are listed, and how many
    are summarised as "more". */
module Report {
  import opened Wrappers
  import opened Arith
  import opened Text
  import opened Years
  import opened Fetch
  import opened Coverage

  function Min(a: int, b: int): int
  {
    if a <= b then a else b
  }

  /** `max(yearly.values()) if yearly else 1`. */
  function MaxCount(counts: seq<YearCount>): (m: nat)
    ensures |counts| == 0 ==> m == 1
    ensures forall i :: 0 <= i < |counts| ==> counts[i].count <= m
    decreases |counts|
  {
    if |counts| <= 1 then
      if |counts| == 0 then 1 else counts[0].count
    else
      var rest := counts[1..];
      var m := MaxCount(rest);
      assert forall i :: 0 <= i < |rest| ==> rest[i] == counts[i + 1];
      if counts[0].count >= m then counts[0].count else m
  }

  /** The largest count is the count of some year. */
  lemma {:induction false} MaxCountAttained(counts: seq<YearCount>)
    requires |counts| > 0
    ensures exists i :: 0 <= i < |counts| && counts[i].count == MaxCount(counts)
    decreases |counts|
  {
    if |counts| == 1 {
      assert counts[0].count == MaxCount(counts);
    } else {
      var rest := counts[1..];
      MaxCountAttained(rest);
      var j :| 0 <= j < |rest| && rest[j].count == MaxCount(rest);
      if counts[0].count >= MaxCount(rest) {
        assert counts[0].count == MaxCount(counts);
      } else {
        assert counts[j + 1].count == MaxCount(counts);
      }
    }
  }

  /** `int((count / max_count) * 10)`, in exact arithmetic: the largest
      whole number of tenths of `max_count` that fit in `count`. */
  function BarLength(count: nat, maxCount: nat): (n: nat)
    requires maxCount > 0
  {
    (count * 10) / maxCount
  }

  /** The bar length is the floor of `count * 10 / max_count`: the largest
      `n` whose `n` tenths of the maximum do not exceed the count. */
  lemma BarLengthFloor(count: nat, maxCount: nat)
    requires maxCount > 0
    ensures var n := BarLength(count, maxCount);
      n * maxCount <= count * 10 < (n + 1) * maxCount
  {
  }

  /** No whole number of tenths larger than the bar length fits in the count. */
  lemma BarLengthLargest(count: nat, maxCount: nat, k: int)
    requires maxCount > 0 && k * maxCount <= count * 10
    ensures k <= BarLength(count, maxCount)
  {
    BarLengthFloor(count, maxCount);
    MulLtBound(k, maxCount, BarLength(count, maxCount) + 1);
  }

  /** A count no larger than the maximum gets at most ten cells, and all ten
      exactly when it is the maximum. */
  lemma BarLengthBounds(count: nat, maxCount: nat)
    requires 0 < maxCount && count <= maxCount
    ensures BarLength(count, maxCount) <= 10
    ensures BarLength(count, maxCount) == 10 <==> count == maxCount
  {
    var n := BarLength(count, maxCount);
    BarLengthFloor(count, maxCount);
    MulLeBound(n, maxCount, 10);
    if count == maxCount {
      MulLtBound(10, maxCount, n + 1);
    } else {
      MulLtBound(n, maxCount, 10);
    }
  }

  /** A larger count never gets a shorter bar. */
  lemma BarLengthMonotone(c1: nat, c2: nat, maxCount: nat)
    requires 0 < maxCount && c1 <= c2
    ensures BarLength(c1, maxCount) <= BarLength(c2, maxCount)
  {
    var n1, n2 := BarLength(c1, maxCount), BarLength(c2, maxCount);
    BarLengthFloor(c1, maxCount);
    BarLengthFloor(c2, maxCount);
    MulLtBound(n1, maxCount, n2 + 1);
  }

  /** `ch * k` in Python: empty when `k` is not positive. */
  function Repeat(ch: char, k: int): (r: string)
    ensures |r| == if k < 0 then 0 else k
    ensures forall i :: 0 <= i < |r| ==> r[i] == ch
  {
    seq(if k < 0 then 0 else k, _ => ch)
  }

  /** `"█" * bar_length + "░" * (10 - bar_length)`. */
  function Bar(count: nat, maxCount: nat): (bar: string)
    requires maxCount > 0
    ensures |bar| == if BarLength(count, maxCount) > 10 then BarLength(count, maxCount) else 10
    ensures forall i :: 0 <= i < |bar| ==> (bar[i] == '█' <==> i < BarLength(count, maxCount))
    ensures forall i :: 0 <= i < |bar| ==> (bar[i] == '█' || bar[i] == '░')
  {
    var n := BarLength(count, maxCount);
    Repeat('█', n) + Repeat('░', 10 - n)
  }

  /** One line of the coverage section: year, bar and count. */
  datatype BarLine = BarLine(year: string, bar: string, count: nat)

  /** `xs[-10:]`. */
  function LastTen<T>(xs: seq<T>): (r: seq<T>)
    ensures |r| == Min(|xs|, 10)
    ensures forall i :: 0 <= i < |r| ==> r[i] == xs[|xs| - |r| + i]
  {
    xs[|xs| - Min(|xs|, 10)..]
  }

  /** `xs[:10]`. */
  function FirstTen<T>(xs: seq<T>): (r: seq<T>)
    ensures |r| == Min(|xs|, 10)
    ensures forall i :: 0 <= i < |r| ==> r[i] == xs[i]
  {
    xs[..Min(|xs|, 10)]
  }

  /** The "... and N more" line: present only past ten entries. */
  function Overflow(n: nat): (more: Option<nat>)
    ensures more.Some? <==> n > 10
    ensures more.Some? ==> more.value > 0
  {
    if n > 10 then Some(n - 10) else None
  }

  function Hidden(more: Option<nat>): nat
  {
    if more.Some? then more.value else 0
  }

  /** Listed and summarised entries account for every entry, both for the
      last ten years and for the first ten missing years. */
  lemma ExcerptsAccountForAll<T>(xs: seq<T>)
    ensures |LastTen(xs)| + Hidden(Overflow(|xs|)) == |xs|
    ensures |FirstTen(xs)| + Hidden(Overflow(|xs|)) == |xs|
  {
  }

  /** Ten cells, the first `n` filled and the rest empty. */
  function Cells(n: nat): (cells: string)
    requires n <= 10
    ensures |cells| == 10
    ensures forall k :: 0 <= k < 10 ==>
      (cells[k] == '█' <==> k < n) && (cells[k] == '█' || cells[k] == '░')
  {
    seq(10, k => if k < n then '█' else '░')
  }

  /** A line's bar has ten cells, filled exactly up to the bar length of
      the line's own count and empty after it. */
  predicate DrawsCount(line: BarLine, maxCount: nat)
    requires maxCount > 0
  {
    && BarLength(line.count, maxCount) <= 10
    && line.bar == Cells(BarLength(line.count, maxCount))
  }

  /** One coverage line for a year whose count does not exceed the
      largest count. */
  function Line(c: YearCount, maxCount: nat): (line: BarLine)
    requires 0 < maxCount && c.count <= maxCount
    ensures line.year == c.year && line.count == c.count && DrawsCount(line, maxCount)
  {
    var n := BarLength(c.count, maxCount);
    BarLengthBounds(c.count, maxCount);
    var bar := Bar(c.count, maxCount);
    assert bar == Cells(n) by {
      assert forall k :: 0 <= k < 10 ==> bar[k] == Cells(n)[k];
    }
    BarLine(c.year, bar, c.count)
  }

  /** The lines for `shown`, every count of which is at most `maxCount`. */
  function Lines(shown: seq<YearCount>, maxCount: nat): (lines: seq<BarLine>)
    requires 0 < maxCount
    requires forall i :: 0 <= i < |shown| ==> shown[i].count <= maxCount
    ensures |lines| == |shown|
    ensures forall i :: 0 <= i < |lines| ==>
      lines[i].year == shown[i].year && lines[i].count == shown[i].count && DrawsCount(lines[i], maxCount)
  {
    if |shown| == 0 then [] else [Line(shown[0], maxCount)] + Lines(shown[1..], maxCount)
  }

  lemma LastTenBounded(counts: seq<YearCount>, m: nat)
    requires forall i :: 0 <= i < |counts| ==> counts[i].count <= m
    ensures forall i :: 0 <= i < |LastTen(counts)| ==> LastTen(counts)[i].count <= m
  {
  }

  /** Lines drawn for a suffix of `counts` correspond index by index to the
      tail of `counts`. */
  lemma SuffixLines(counts: seq<YearCount>, shown: seq<YearCount>, lines: seq<BarLine>, m: nat)
    requires m > 0 && |shown| <= |counts| && |lines| == |shown|
    requires forall i :: 0 <= i < |shown| ==> shown[i] == counts[|counts| - |shown| + i]
    requires forall i :: 0 <= i < |lines| ==>
      lines[i].year == shown[i].year && lines[i].count == shown[i].count && DrawsCount(lines[i], m)
    ensures forall i :: 0 <= i < |lines| ==>
      lines[i].year == counts[|counts| - |lines| + i].year
      && lines[i].count == counts[|counts| - |lines| + i].count
    ensures forall i :: 0 <= i < |lines| ==> DrawsCount(lines[i], m)
  {
  }

  /** The lines for the last ten years, drawn against `m`, which no count
      exceeds. */
  function ChartLines(counts: seq<YearCount>, m: nat): (lines: seq<BarLine>)
    requires 0 < m && forall i :: 0 <= i < |counts| ==> counts[i].count <= m
    ensures |lines| == Min(|counts|, 10)
    ensures forall i :: 0 <= i < |lines| ==>
      lines[i].year == counts[|counts| - |lines| + i].year
      && lines[i].count == counts[|counts| - |lines| + i].count
    ensures forall i :: 0 <= i < |lines| ==> DrawsCount(lines[i], m)
  {
    var shown := LastTen(counts);
    LastTenBounded(counts, m);
    var lines := Lines(shown, m);
    SuffixLines(counts, shown, lines, m);
    lines
  }

  /** The coverage lines: the last ten years in key order, each with its
      count and a bar scaled to the largest count of all years. */
  function CoverageLines(counts: seq<YearCount>): (lines: seq<BarLine>)
    requires MaxCount(counts) > 0
    ensures |lines| == Min(|counts|, 10)
    ensures forall i :: 0 <= i < |lines| ==>
      lines[i].year == counts[|counts| - |lines| + i].year
      && lines[i].count == counts[|counts| - |lines| + i].count
    ensures forall i :: 0 <= i < |lines| ==> DrawsCount(lines[i], MaxCount(counts))
  {
    ChartLines(counts, MaxCount(counts))
  }

  /** With the keys ascending, the listed years are the latest ones: each
      follows every year left out. */
  lemma ListedYearsAreLatest(counts: seq<YearCount>, i: nat, j: nat)
    requires StrictlyAscending(KeysOf(counts))
    requires i < |counts| - Min(|counts|, 10) && j < Min(|counts|, 10)
    ensures LexLess(counts[i].year, LastTen(KeysOf(counts))[j])
  {
    var ks := KeysOf(counts);
    assert LastTen(ks)[j] == ks[|ks| - Min(|ks|, 10) + j];
  }

  /** With the missing years ascending, the listed ones are the earliest:
      each precedes every missing year left out. */
  lemma ListedGapsAreEarliest(missing: seq<string>, i: nat, j: nat)
    requires StrictlyAscending(missing)
    requires i < Min(|missing|, 10) <= j < |missing|
    ensures LexLess(FirstTen(missing)[i], missing[j])
  {
  }

  /** Analysed statistics: every listed bar is ten cells wide, and the year
      with the most snapshots, when listed, gets a full bar. */
  lemma AnalyzedBars(snapshots: seq<Row>)
    requires ValidSnapshots(snapshots) && |snapshots| > 0
    ensures var s := Analyze(snapshots).value;
      MaxCount(s.yearlyCounts) > 0
      && (forall i :: 0 <= i < |s.yearlyCounts| ==>
            BarLength(s.yearlyCounts[i].count, MaxCount(s.yearlyCounts)) <= 10)
      && (forall i :: 0 <= i < |s.yearlyCounts| ==>
            (BarLength(s.yearlyCounts[i].count, MaxCount(s.yearlyCounts)) == 10
             <==> s.yearlyCounts[i].count == MaxCount(s.yearlyCounts)))
  {
    var s := Analyze(snapshots).value;
    var m := MaxCount(s.yearlyCounts);
    assert CountsByYear(s, Timestamps(snapshots));
    assert |s.yearlyCounts| > 0 by {
      assert YearKey(Timestamps(snapshots)[0]) in KeysOf(s.yearlyCounts);
    }
    MaxCountAttained(s.yearlyCounts);
    forall i | 0 <= i < |s.yearlyCounts|
      ensures BarLength(s.yearlyCounts[i].count, m) <= 10
      ensures BarLength(s.yearlyCounts[i].count, m) == 10 <==> s.yearlyCounts[i].count == m
    {
      BarLengthBounds(s.yearlyCounts[i].count, m);
    }
  }
}
