/**
 * Python's `str.strip()` with no argument: it removes leading and trailing
 * characters for which `str.isspace()` holds.
 */
module PyStr {

  /** The characters `str.isspace()` accepts. */
  predicate IsSpace(c: char)
  {
    || c == ' ' || c == '\t' || c == '\n' || c == '\r' || c == '\U{000B}' || c == '\U{000C}'
    || ('\U{001C}' <= c <= '\U{001F}')
    || c == '\U{0085}' || c == '\U{00A0}' || c == '\U{1680}'
    || ('\U{2000}' <= c <= '\U{200A}')
    || c == '\U{2028}' || c == '\U{2029}' || c == '\U{202F}' || c == '\U{205F}' || c == '\U{3000}'
  }

  predicate AllSpace(s: string)
  {
    forall i :: 0 <= i < |s| ==> IsSpace(s[i])
  }

  /** Neither the first nor the last character is whitespace. */
  predicate NoOuterSpace(s: string)
  {
    s == [] || (!IsSpace(s[0]) && !IsSpace(s[|s| - 1]))
  }

  /** `s.lstrip()`: the suffix of `s` left once leading whitespace is gone. */
  function StripStart(s: string): (r: string)
    ensures |r| <= |s|
    ensures r == [] || !IsSpace(r[0])
  {
    if s != [] && IsSpace(s[0]) then StripStart(s[1..]) else s
  }

  /** `lstrip` keeps a suffix and drops only whitespace before it. */
  lemma {:induction false} StripStartSplits(s: string)
    ensures var r := StripStart(s);
      r == s[|s| - |r|..] && AllSpace(s[..|s| - |r|])
  {
    if s != [] && IsSpace(s[0]) {
      StripStartSplits(s[1..]);
      var r := StripStart(s);
      var k := |s| - |r|;
      assert s[1..][k - 1..] == s[k..];
      forall j | 0 <= j < k
        ensures IsSpace(s[j])
      {
        if j > 0 {
          assert s[j] == s[1..][..k - 1][j - 1];
        }
      }
    }
  }

  /** `s.rstrip()`: the prefix of `s` left once trailing whitespace is gone. */
  function StripEnd(s: string): (r: string)
    ensures |r| <= |s|
    ensures r == [] || !IsSpace(r[|r| - 1])
  {
    if s != [] && IsSpace(s[|s| - 1]) then StripEnd(s[..|s| - 1]) else s
  }

  /** `rstrip` keeps a prefix and drops only whitespace after it. */
  lemma {:induction false} StripEndSplits(s: string)
    ensures var r := StripEnd(s);
      r == s[..|r|] && AllSpace(s[|r|..])
  {
    if s != [] && IsSpace(s[|s| - 1]) {
      var init := s[..|s| - 1];
      StripEndSplits(init);
      var r := StripEnd(s);
      assert init[..|r|] == s[..|r|];
      forall j | |r| <= j < |s|
        ensures IsSpace(s[j])
      {
        if j < |s| - 1 {
          assert s[j] == init[|r|..][j - |r|];
        }
      }
    }
  }

  /** `s.strip()`. */
  function Strip(s: string): (r: string)
    ensures |r| <= |s|
    ensures NoOuterSpace(r)
  {
    var t := StripStart(s);
    StripEndSplits(t);
    StripEnd(t)
  }

  /** How many leading characters `Strip` removes. */
  function StripOffset(s: string): nat
  {
    |s| - |StripStart(s)|
  }

  /** `Strip` keeps one contiguous slice of its input and drops only whitespace around it. */
  lemma StripKeepsMiddle(s: string)
    ensures var i, r := StripOffset(s), Strip(s);
      && i + |r| <= |s|
      && r == s[i..i + |r|]
      && AllSpace(s[..i])
      && AllSpace(s[i + |r|..])
  {
    var t := StripStart(s);
    var r := StripEnd(t);
    assert StripOffset(s) == |s| - |t| && Strip(s) == r;
    StripStartSplits(s);
    StripEndSplits(t);
    SuffixSlices(s, |s| - |t|, t, |r|);
  }

  lemma SuffixSlices(s: string, i: nat, t: string, n: nat)
    requires i <= |s| && t == s[i..] && n <= |t|
    ensures t[..n] == s[i..i + n] && t[n..] == s[i + n..]
  {
  }

  lemma {:induction false} StripStartOverSpace(p: string, t: string)
    requires AllSpace(p)
    requires t == [] || !IsSpace(t[0])
    ensures StripStart(p + t) == t
    decreases |p|
  {
    if p != [] {
      assert (p + t)[1..] == p[1..] + t;
      StripStartOverSpace(p[1..], t);
    } else {
      assert p + t == t;
    }
  }

  lemma {:induction false} StripEndOverSpace(t: string, q: string)
    requires AllSpace(q)
    requires t == [] || !IsSpace(t[|t| - 1])
    ensures StripEnd(t + q) == t
    decreases |q|
  {
    if q != [] {
      assert (t + q)[..|t + q| - 1] == t + q[..|q| - 1];
      StripEndOverSpace(t, q[..|q| - 1]);
    } else {
      assert t + q == t;
    }
  }

  /**
   * `Strip` is determined by its result: whenever `s` is whitespace, then a
   * middle with no outer whitespace, then whitespace, the middle is `Strip(s)`.
   */
  lemma StripUnique(p: string, m: string, q: string)
    requires AllSpace(p) && AllSpace(q) && NoOuterSpace(m)
    ensures Strip(p + m + q) == m
  {
    if m == [] {
      assert p + m + q == (p + q) + [];
      assert AllSpace(p + q);
      StripStartOverSpace(p + q, []);
    } else {
      assert p + m + q == p + (m + q);
      StripStartOverSpace(p, m + q);
      StripEndOverSpace(m, q);
    }
  }

  /** Stripping twice changes nothing. */
  lemma StripIdempotent(s: string)
    ensures Strip(Strip(s)) == Strip(s)
  {
    var r := Strip(s);
    assert [] + r + [] == r;
    StripUnique([], r, []);
  }
}
