/** The domain normalisation in `WaybackAnalyzer.__init__`:
    `domain.replace('http://', '').replace('https://', '').strip('/')`.

    The lemmas about particular strings near the end take those strings as
    parameters fixed by `requires`, and split off steps such as
    `KeepsShortTail` and `JoinedText`: this keeps the solver from unfolding
    `DeleteAll` on every constant at once. */
module Domain {
  import opened Text

  /** Python's `s.replace(p, '')`: one left-to-right pass deleting
      non-overlapping occurrences of `p`. */
  function DeleteAll(s: string, p: string): (r: string)
    requires |p| > 0
    ensures |r| <= |s|
    decreases |s|
  {
    if |s| < |p| then s
    else if s[..|p|] == p then DeleteAll(s[|p|..], p)
    else [s[0]] + DeleteAll(s[1..], p)
  }

  /** Dropping the first character keeps an absent pattern absent. */
  lemma AbsentInTail(s: string, p: string)
    requires |s| > 0 && !Occurs(s, p)
    ensures !Occurs(s[1..], p)
  {
    var w := s[1..];
    forall i | 0 <= i && i + |p| <= |w|
      ensures !OccursAt(w, p, i)
    {
      assert w[i..i + |p|] == s[i + 1..i + 1 + |p|];
      assert !OccursAt(s, p, i + 1);
    }
  }

  /** An occurrence not at the front is an occurrence in the tail. */
  lemma PresentInTail(s: string, p: string)
    requires Occurs(s, p) && !OccursAt(s, p, 0)
    ensures |s| > 0 && Occurs(s[1..], p)
  {
    var i :| OccursAt(s, p, i);
    assert s[1..][i - 1..i - 1 + |p|] == s[i..i + |p|];
    assert OccursAt(s[1..], p, i - 1);
  }

  lemma {:induction false} DeleteAllAbsent(s: string, p: string)
    requires |p| > 0 && !Occurs(s, p)
    ensures DeleteAll(s, p) == s
    decreases |s|
  {
    if |s| >= |p| {
      assert !OccursAt(s, p, 0);
      AbsentInTail(s, p);
      DeleteAllAbsent(s[1..], p);
      assert s == [s[0]] + s[1..];
    }
  }

  lemma {:induction false} DeleteAllPresent(s: string, p: string)
    requires |p| > 0 && Occurs(s, p)
    ensures |DeleteAll(s, p)| <= |s| - |p|
    decreases |s|
  {
    var i :| OccursAt(s, p, i);
    if s[..|p|] != p {
      assert !OccursAt(s, p, 0);
      PresentInTail(s, p);
      DeleteAllPresent(s[1..], p);
    }
  }

  /** The pass changes nothing exactly when there is nothing to delete;
      otherwise it shortens the string by at least one occurrence. */
  lemma DeleteAllUnchanged(s: string, p: string)
    requires |p| > 0
    ensures DeleteAll(s, p) == s <==> !Occurs(s, p)
    ensures Occurs(s, p) ==> |DeleteAll(s, p)| <= |s| - |p|
  {
    if Occurs(s, p) {
      DeleteAllPresent(s, p);
    } else {
      DeleteAllAbsent(s, p);
    }
  }

  /** A leading occurrence is deleted and the pass continues after it. */
  lemma DeleteAllPrefix(p: string, s: string)
    requires |p| > 0
    ensures DeleteAll(p + s, p) == DeleteAll(s, p)
  {
    assert (p + s)[..|p|] == p;
    assert (p + s)[|p|..] == s;
  }

  /** Python's `t.lstrip('/')`. */
  function TrimLeadingSlashes(t: string): (r: string)
    ensures |r| <= |t| && r == t[|t| - |r|..]
    ensures forall k :: 0 <= k < |t| - |r| ==> t[k] == '/'
    ensures |r| > 0 ==> r[0] != '/'
  {
    if |t| > 0 && t[0] == '/' then TrimLeadingSlashes(t[1..]) else t
  }

  /** Python's `t.rstrip('/')`. */
  function TrimTrailingSlashes(t: string): (r: string)
    ensures |r| <= |t| && r == t[..|r|]
    ensures forall k :: |r| <= k < |t| ==> t[k] == '/'
    ensures |r| > 0 ==> r[|r| - 1] != '/'
  {
    if |t| > 0 && t[|t| - 1] == '/' then TrimTrailingSlashes(t[..|t| - 1]) else t
  }

  /** `t[..i]` and `t[j..]` consist of slashes only. */
  predicate SlashFrame(t: string, i: int, j: int)
  {
    0 <= i <= j <= |t|
    && (forall k :: 0 <= k < i ==> t[k] == '/')
    && (forall k :: j <= k < |t| ==> t[k] == '/')
  }

  /** Python's `t.strip('/')`: the slice left after removing slashes from
      both ends, which neither starts nor ends with a slash. */
  function StripSlashes(t: string): (r: string)
    ensures exists i, j :: SlashFrame(t, i, j) && r == t[i..j]
    ensures |r| > 0 ==> r[0] != '/' && r[|r| - 1] != '/'
  {
    var u := TrimLeadingSlashes(t);
    var r := TrimTrailingSlashes(u);
    assert SlashFrame(t, |t| - |u|, |t| - |u| + |r|);
    assert r == t[|t| - |u|..|t| - |u| + |r|];
    r
  }

  /** The normalised domain. */
  function Normalize(raw: string): (r: string)
    ensures |r| <= |raw|
    ensures |r| > 0 ==> r[0] != '/' && r[|r| - 1] != '/'
  {
    StripSlashes(DeleteAll(DeleteAll(raw, "http://"), "https://"))
  }

  /** A bare domain: no scheme text inside and no slash at either end. */
  ghost predicate IsBare(d: string)
  {
    && !Occurs(d, "http://")
    && !Occurs(d, "https://")
    && (|d| > 0 ==> d[0] != '/' && d[|d| - 1] != '/')
  }

  lemma StripBare(d: string)
    requires |d| > 0 ==> d[0] != '/' && d[|d| - 1] != '/'
    ensures StripSlashes(d) == d
    ensures StripSlashes(d + "/") == d
  {
    var e := d + "/";
    if |d| > 0 {
      assert TrimLeadingSlashes(d) == d && TrimTrailingSlashes(d) == d;
      assert e[0] == d[0];
      assert TrimLeadingSlashes(e) == e;
      assert e[..|e| - 1] == d;
      assert TrimTrailingSlashes(e) == d;
    } else {
      assert e[1..] == [];
      assert TrimLeadingSlashes(e) == [];
    }
  }

  /** Appending one slash to a bare domain cannot complete an occurrence of
      a scheme, since both schemes end in two slashes. */
  lemma NoSchemeWithSlash(d: string, p: string)
    requires p == "http://" || p == "https://"
    requires !Occurs(d, p)
    requires |d| > 0 ==> d[|d| - 1] != '/'
    ensures !Occurs(d + "/", p)
  {
    var s := d + "/";
    forall i | 0 <= i && i + |p| <= |s|
      ensures !OccursAt(s, p, i)
    {
      if i + |p| <= |d| {
        assert s[i..i + |p|] == d[i..i + |p|];
        assert !OccursAt(d, p, i);
      } else {
        assert s[i..i + |p|][|p| - 2] == d[|d| - 1];
      }
    }
  }

  /** `https://` followed by a string without `http://` has no `http://`. */
  lemma NoHttpAfterHttps(d: string)
    requires !Occurs(d, "http://")
    ensures !Occurs("https://" + d, "http://")
  {
    var s := "https://" + d;
    forall i | 0 <= i && i + 7 <= |s|
      ensures !OccursAt(s, "http://", i)
    {
      if i >= 8 {
        assert s[i..i + 7] == d[i - 8..i - 8 + 7];
        assert !OccursAt(d, "http://", i - 8);
      } else if i == 0 {
        assert s[i..i + 7][4] == 's';
      } else {
        assert s[i..i + 7][0] == s[i];
      }
    }
  }

  /** The scheme and trailing-slash variants of a bare domain all normalise
      to the bare domain itself. */
  lemma NormalizeVariants(d: string)
    requires IsBare(d)
    ensures Normalize(d) == d
    ensures Normalize(d + "/") == d
    ensures Normalize("http://" + d) == d
    ensures Normalize("http://" + d + "/") == d
    ensures Normalize("https://" + d) == d
    ensures Normalize("https://" + d + "/") == d
  {
    var d' := d + "/";
    NoSchemeWithSlash(d, "http://");
    NoSchemeWithSlash(d, "https://");
    NoHttpAfterHttps(d);
    NoHttpAfterHttps(d');
    DeleteAllUnchanged(d, "http://");
    DeleteAllUnchanged(d, "https://");
    DeleteAllUnchanged(d', "http://");
    DeleteAllUnchanged(d', "https://");
    DeleteAllUnchanged("https://" + d, "http://");
    DeleteAllUnchanged("https://" + d', "http://");
    DeleteAllPrefix("http://", d);
    DeleteAllPrefix("http://", d');
    DeleteAllPrefix("https://", d);
    DeleteAllPrefix("https://", d');
    assert "http://" + d + "/" == "http://" + d';
    assert "https://" + d + "/" == "https://" + d';
    StripBare(d);
  }

  lemma KeepsShortTail(t: string)
    requires t == "tp://x"
    ensures DeleteAll(t, "http://") == t
  {
  }

  lemma DeletesInnerScheme(u: string)
    requires u == "http://tp://x"
    ensures DeleteAll(u, "http://") == "tp://x"
  {
    assert u[..7] == "http://";
    assert u[7..] == "tp://x";
    KeepsShortTail(u[7..]);
  }

  /** Without a match at the front, the first character is kept. */
  lemma DeleteAllSkip(s: string, p: string)
    requires 0 < |p| <= |s| && s[..|p|] != p
    ensures DeleteAll(s, p) == [s[0]] + DeleteAll(s[1..], p)
  {
  }

  lemma JoinedText(a: char, b: char, t: string)
    requires a == 'h' && b == 't' && t == "tp://x"
    ensures [a] + ([b] + t) == "http://x"
  {
  }

  /** One pass of deleting `http://` from `hthttp://tp://x` leaves
      `http://x`: the deletion joins the characters around it. */
  lemma DeleteJoinsScheme(s: string)
    requires s == "hthttp://tp://x"
    ensures DeleteAll(s, "http://") == "http://x"
  {
    var p := "http://";
    var s1 := s[1..];
    assert s[..7][2] != p[2];
    DeleteAllSkip(s, p);
    assert s1[..7][0] != p[0];
    DeleteAllSkip(s1, p);
    assert s1[1..] == s[2..];
    DeletesInnerScheme(s[2..]);
    JoinedText(s[0], s1[0], "tp://x");
  }

  lemma NormalizeJoinedScheme(s: string)
    requires s == "http://x"
    ensures DeleteAll(s, "https://") == s
    ensures TrimTrailingSlashes(s) == s
    ensures DeleteAll(s, "http://") == "x"
  {
    assert s[..8][4] != "https://"[4];
    assert s[1..] == "ttp://x";
    assert DeleteAll("ttp://x", "https://") == "ttp://x";
    assert s[..7] == "http://";
    assert s[7..] == "x";
  }

  /** Normalising twice can differ from normalising once: deleting the inner
      `http://` of `hthttp://tp://x` joins its neighbours into a new one. */
  lemma NormalizeNotIdempotent()
    ensures Normalize("hthttp://tp://x") == "http://x"
    ensures Normalize("http://x") == "x"
  {
    DeleteJoinsScheme("hthttp://tp://x");
    NormalizeJoinedScheme("http://x");
    assert DeleteAll("x", "https://") == "x";
  }
}
