/** Four-character year keys: the analyzer slices `timestamp[:4]`, converts
    keys with `int()` and renders the range back with `str()`. */
module Years {
  import opened Text
  import opened Decimal

  /** A key that `int()` accepts and that `str(int(key))` reproduces: four
      ASCII digits without a leading zero. */
  predicate IsYear(y: string)
  {
    |y| == 4 && AllDigits(y) && y[0] != '0'
  }

  /** `timestamp[:4]`. */
  function YearKey(t: string): string
  {
    Take(t, 4)
  }

  /** The key is the first four characters, or the whole timestamp when it
      is shorter. */
  lemma YearKeyIsPrefix(t: string)
    ensures var k := YearKey(t);
      |k| <= 4 && k == t[..|k|] && (|t| >= 4 <==> |k| == 4)
  {
  }

  /** A timestamp whose `[:4]` slice is such a key. */
  predicate HasYear(t: string)
  {
    IsYear(YearKey(t))
  }

  /** `int(key)` for a year key. */
  function YearValue(y: string): (n: int)
    requires IsYear(y)
    ensures 1000 <= n <= 9999
  {
    ValueBound(y);
    ValueLowerBound(y);
    Value(y)
  }

  /** `int(timestamp[:4])`. */
  function YearOf(t: string): int
    requires HasYear(t)
  {
    YearValue(YearKey(t))
  }

  /** `str(n)` for a four-digit year. */
  function YearText(n: int): string
    requires 1000 <= n <= 9999
  {
    Digits(n, 4)
  }

  /** `str(int(y)) == y`: the year range the analyzer builds with `str()`
      meets the keys it sliced from the timestamps. */
  lemma TextOfValue(y: string)
    requires IsYear(y)
    ensures YearText(YearValue(y)) == y
  {
    DigitsOfValue(y);
  }

  /** `int(str(n)) == n`, and `str(n)` is itself a key. */
  lemma ValueOfText(n: int)
    requires 1000 <= n <= 9999
    ensures IsYear(YearText(n)) && YearValue(YearText(n)) == n
  {
    var s := Digits(n, 4);
    ValueOfDigits(n, 4);
    if s[0] == '0' {
      LeadingZero(s);
      ValueBound(s[1..]);
      assert false;
    }
  }

  /** Distinct years have distinct texts. */
  lemma YearTextInjective(m: int, n: int)
    requires 1000 <= m <= 9999 && 1000 <= n <= 9999
    ensures YearText(m) == YearText(n) <==> m == n
  {
    ValueOfText(m);
    ValueOfText(n);
  }

  /** On year keys, Python's string order (`min`, `max`, `sorted`) is the
      numeric order of the years. */
  lemma YearOrder(a: string, b: string)
    requires IsYear(a) && IsYear(b)
    ensures LexLess(a, b) <==> YearValue(a) < YearValue(b)
  {
    ValueOrder(a, b);
  }

  /** The `<=` form of the same fact. */
  lemma YearOrderEq(a: string, b: string)
    requires IsYear(a) && IsYear(b)
    ensures LexLessEq(a, b) <==> YearValue(a) <= YearValue(b)
  {
    YearOrder(a, b);
    if YearValue(a) == YearValue(b) {
      TextOfValue(a);
      TextOfValue(b);
    }
    if a == b {
      LexLessIrreflexive(a);
    }
  }
}
