/** String primitives with the semantics of Python's `str`: code-point
    comparison, `startswith`, slicing and substring search. */
module Text {

  /** Python's `a < b` on strings: lexicographic by code point, and a proper
      prefix is smaller than the string it prefixes. */
  predicate LexLess(a: string, b: string)
    decreases |a|
  {
    |b| > 0 && (|a| == 0 || a[0] < b[0] || (a[0] == b[0] && LexLess(a[1..], b[1..])))
  }

  /** Python's `a <= b` on strings. */
  predicate LexLessEq(a: string, b: string)
  {
    a == b || LexLess(a, b)
  }

  lemma {:induction false} LexLessIrreflexive(a: string)
    ensures !LexLess(a, a)
    decreases |a|
  {
    if |a| > 0 {
      LexLessIrreflexive(a[1..]);
    }
  }

  lemma {:induction false} LexLessTransitive(a: string, b: string, c: string)
    requires LexLess(a, b) && LexLess(b, c)
    ensures LexLess(a, c)
    decreases |a|
  {
    if |a| > 0 && a[0] == b[0] && b[0] == c[0] {
      LexLessTransitive(a[1..], b[1..], c[1..]);
    }
  }

  lemma {:induction false} LexLessTotal(a: string, b: string)
    ensures a == b || LexLess(a, b) || LexLess(b, a)
    decreases |a|
  {
    if |a| > 0 && |b| > 0 && a[0] == b[0] {
      LexLessTotal(a[1..], b[1..]);
      if a[1..] == b[1..] {
        assert a == [a[0]] + a[1..];
        assert b == [b[0]] + b[1..];
      }
    }
  }

  /** `a < b` and `b < a` never hold together. */
  lemma {:induction false} LexLessAsymmetric(a: string, b: string)
    requires LexLess(a, b)
    ensures !LexLess(b, a)
    decreases |a|
  {
    if |a| > 0 && a[0] == b[0] {
      LexLessAsymmetric(a[1..], b[1..]);
    }
  }

  /** Strings that agree up to position `k` and differ there compare as
      their characters at `k` do. */
  lemma {:induction false} LexLessAt(a: string, b: string, k: nat)
    requires k < |a| && k < |b| && a[..k] == b[..k] && a[k] < b[k]
    ensures LexLess(a, b)
    decreases k
  {
    if k > 0 {
      assert a[0] == a[..k][0] == b[..k][0] == b[0];
      assert a[1..][..k - 1] == a[..k][1..];
      assert b[1..][..k - 1] == b[..k][1..];
      LexLessAt(a[1..], b[1..], k - 1);
    }
  }

  /** A proper prefix sorts before the string it prefixes. */
  lemma {:induction false} LexLessPrefix(a: string, b: string)
    requires |a| < |b| && b[..|a|] == a
    ensures LexLess(a, b)
    decreases |a|
  {
    if |a| > 0 {
      assert b[1..][..|a| - 1] == a[1..];
      LexLessPrefix(a[1..], b[1..]);
    }
  }

  /** Conversely, `a < b` holds only through those two cases: `a` is a
      proper prefix of `b`, or at the first position where they differ `a`
      has the smaller character. */
  lemma {:induction false} LexLessCases(a: string, b: string)
    requires LexLess(a, b)
    ensures (|a| < |b| && b[..|a|] == a)
      || exists k :: 0 <= k < |a| && k < |b| && a[..k] == b[..k] && a[k] < b[k]
    decreases |a|
  {
    if |a| == 0 {
      assert b[..0] == a;
    } else if a[0] != b[0] {
      assert a[..0] == b[..0];
    } else {
      var a', b' := a[1..], b[1..];
      LexLessCases(a', b');
      if |a'| < |b'| && b'[..|a'|] == a' {
        assert b[..|a|] == [b[0]] + b'[..|a'|];
        assert a == [a[0]] + a';
      } else {
        var k :| 0 <= k < |a'| && k < |b'| && a'[..k] == b'[..k] && a'[k] < b'[k];
        assert a[..k + 1] == [a[0]] + a'[..k];
        assert b[..k + 1] == [b[0]] + b'[..k];
        assert a[k + 1] < b[k + 1];
      }
    }
  }

  lemma LexLessEqTransitive(a: string, b: string, c: string)
    requires LexLessEq(a, b) && LexLessEq(b, c)
    ensures LexLessEq(a, c)
  {
    if a != b && b != c {
      LexLessTransitive(a, b, c);
    }
  }

  /** Comparing two equal-length strings extended by one character each:
      the prefixes decide unless they are equal. */
  lemma {:induction false} LexLessAppend(a: string, b: string, x: char, y: char)
    requires |a| == |b|
    ensures LexLess(a + [x], b + [y]) <==> LexLess(a, b) || (a == b && x < y)
    decreases |a|
  {
    if |a| > 0 {
      assert (a + [x])[1..] == a[1..] + [x];
      assert (b + [y])[1..] == b[1..] + [y];
      LexLessAppend(a[1..], b[1..], x, y);
      if a[0] == b[0] && a[1..] == b[1..] {
        assert a == [a[0]] + a[1..];
        assert b == [b[0]] + b[1..];
      }
    }
  }

  /** Comparing two strings of length at least k: if the first is not
      greater, neither is its k-character prefix. */
  lemma {:induction false} LexLessEqPrefix(a: string, b: string, k: nat)
    requires k <= |a| && k <= |b|
    requires LexLessEq(a, b)
    ensures LexLessEq(a[..k], b[..k])
    decreases k
  {
    if k > 0 && a != b && a[0] == b[0] {
      LexLessEqPrefix(a[1..], b[1..], k - 1);
      assert a[..k][1..] == a[1..][..k - 1];
      assert b[..k][1..] == b[1..][..k - 1];
      if a[1..][..k - 1] == b[1..][..k - 1] {
        assert a[..k] == [a[0]] + a[1..][..k - 1];
        assert b[..k] == [b[0]] + b[1..][..k - 1];
      }
    }
  }

  /** Python's `s.startswith(p)`. */
  predicate StartsWith(s: string, p: string)
  {
    |p| <= |s| && s[..|p|] == p
  }

  /** Python's `s[:k]` for a non-negative k. */
  function Take(s: string, k: nat): (r: string)
    ensures |r| <= k && |r| <= |s|
    ensures |r| == k || |r| == |s|
    ensures r == s[..|r|]
  {
    if |s| <= k then s else s[..k]
  }

  /** `s.startswith(p)` compares the first `len(p)` characters with `p`:
      it holds exactly when `s[:len(p)] == p`. */
  lemma StartsWithTake(s: string, p: string)
    ensures StartsWith(s, p) <==> Take(s, |p|) == p
  {
  }

  /** `p` occurs in `s` starting at index `i`. */
  predicate OccursAt(s: string, p: string, i: int)
  {
    0 <= i && i + |p| <= |s| && s[i..i + |p|] == p
  }

  /** Python's `p in s`. */
  ghost predicate Occurs(s: string, p: string)
  {
    exists i :: OccursAt(s, p, i)
  }
}
