/** The key matcher behind KEYS: greedy, remembering only the last star. */
module Glob {
  import opened Orders

  const STAR: Byte := 42
  const QUESTION: Byte := 63

  /** One byte of the pattern taken as itself. */
  predicate SameByte(s: Str, p: Str, i: nat, j: nat) {
    i < |s| && j < |p| && (p[j] == s[i] || p[j] == QUESTION)
  }

  /** The pattern p[j..] matches the string s[i..]: '?' is any one byte, '*' any run of bytes. */
  ghost predicate GlobAt(s: Str, p: Str, i: nat, j: nat)
    requires i <= |s| && j <= |p|
    decreases |p| - j
  {
    if j == |p| then i == |s|
    else if p[j] == STAR then var next := j + 1; exists k :: i <= k <= |s| && GlobAt(s, p, k, next)
    else SameByte(s, p, i, j) && GlobAt(s, p, i + 1, j + 1)
  }

  ghost predicate Matches(s: Str, p: Str) { GlobAt(s, p, 0, 0) }

  /** The relation the program decides: a '*' of the pattern that faces a '*' of
      the string stands for that one byte. */
  ghost predicate LiteralFirst(s: Str, p: Str, i: nat, j: nat)
    requires i <= |s| && j <= |p|
    decreases |p| - j
  {
    if j == |p| then i == |s|
    else if SameByte(s, p, i, j) then LiteralFirst(s, p, i + 1, j + 1)
    else p[j] == STAR && var next := j + 1; exists k :: i <= k <= |s| && LiteralFirst(s, p, k, next)
  }

  /** Some alignment at or after i matches p[j..]. */
  ghost predicate LiteralFrom(s: Str, p: Str, i: nat, j: nat)
    requires i <= |s| && j <= |p|
  {
    exists k :: i <= k <= |s| && LiteralFirst(s, p, k, j)
  }

  /** matches_pattern decides this, for every string and pattern. */
  ghost predicate Accepted(s: Str, p: Str) { p == [STAR] || LiteralFirst(s, p, 0, 0) }

  /** The run from (m, a) for n bytes matched byte by byte. */
  ghost predicate Aligned(s: Str, p: Str, m: nat, a: nat, n: nat)
    decreases n
  {
    m + n <= |s| && a + n <= |p| && (n > 0 ==> SameByte(s, p, m, a) && Aligned(s, p, m + 1, a + 1, n - 1))
  }

  lemma {:induction false} AlignedStep(s: Str, p: Str, m: nat, a: nat, n: nat)
    requires Aligned(s, p, m, a, n) && SameByte(s, p, m + n, a + n)
    ensures Aligned(s, p, m, a, n + 1)
    decreases n
  {
    if n > 0 { AlignedStep(s, p, m + 1, a + 1, n - 1); }
  }

  lemma {:induction false} AlignedRun(s: Str, p: Str, m: nat, a: nat, n: nat)
    requires Aligned(s, p, m, a, n)
    ensures LiteralFirst(s, p, m, a) <==> LiteralFirst(s, p, m + n, a + n)
    decreases n
  {
    if n > 0 { AlignedRun(s, p, m + 1, a + 1, n - 1); }
  }

  /** No later alignment gets ahead of one that matched byte by byte: this is why
      the last star is the only one worth remembering. */
  lemma {:induction false} NoOvertaking(s: Str, p: Str, m: nat, a: nat, n: nat, k: nat)
    requires Aligned(s, p, m, a, n) && m <= k <= |s| && LiteralFirst(s, p, k, a)
    ensures LiteralFrom(s, p, m + n, a + n)
    decreases n
  {
    if n > 0 {
      if SameByte(s, p, k, a) {
        NoOvertaking(s, p, m + 1, a + 1, n - 1, k + 1);
      } else {
        var k' :| k <= k' <= |s| && LiteralFirst(s, p, k', a + 1);
        NoOvertaking(s, p, m + 1, a + 1, n - 1, k');
      }
    }
  }

  /** Meeting a new star at (i, j) after a run from the old one: nothing is lost by forgetting the old one. */
  lemma {:induction false} ForgetOldStar(s: Str, p: Str, m: nat, a: nat, n: nat)
    requires Aligned(s, p, m, a, n) && a + n < |p|
    requires p[a + n] == STAR && !SameByte(s, p, m + n, a + n)
    ensures LiteralFrom(s, p, m, a) <==> LiteralFrom(s, p, m + n, a + n + 1)
  {
    var i, j := m + n, a + n;
    if LiteralFrom(s, p, m, a) {
      var k :| m <= k <= |s| && LiteralFirst(s, p, k, a);
      NoOvertaking(s, p, m, a, n, k);
      var k' :| i <= k' <= |s| && LiteralFirst(s, p, k', j);
      if SameByte(s, p, k', j) {
        assert LiteralFirst(s, p, k' + 1, j + 1);
      } else {
        var k'' :| k' <= k'' <= |s| && LiteralFirst(s, p, k'', j + 1);
      }
    }
    if LiteralFrom(s, p, i, j + 1) {
      AlignedRun(s, p, m, a, n);
      assert LiteralFirst(s, p, m, a);
    }
  }

  /** A run that is stuck rules out its own alignment and no other. */
  lemma {:induction false} Backtrack(s: Str, p: Str, m: nat, a: nat, n: nat)
    requires Aligned(s, p, m, a, n) && m + n < |s|
    requires !SameByte(s, p, m + n, a + n) && (a + n == |p| || p[a + n] != STAR)
    ensures LiteralFrom(s, p, m, a) <==> LiteralFrom(s, p, m + 1, a)
  {
    AlignedRun(s, p, m, a, n);
    assert !LiteralFirst(s, p, m, a);
  }

  lemma {:induction false} StarMet(s: Str, p: Str, i: nat, j: nat)
    requires i <= |s| && j < |p| && p[j] == STAR && !SameByte(s, p, i, j)
    ensures LiteralFirst(s, p, i, j) <==> LiteralFrom(s, p, i, j + 1)
  {
  }

  lemma {:induction false} OnlyStarsLeft(s: Str, p: Str, j: nat)
    requires j <= |p|
    ensures LiteralFirst(s, p, |s|, j) <==> forall t :: j <= t < |p| ==> p[t] == STAR
    decreases |p| - j
  {
    if j < |p| { OnlyStarsLeft(s, p, j + 1); }
  }

  /** The two loops of matches_pattern. */
  method MatchesPattern(str: Str, pattern: Str) returns (matched: bool)
    ensures matched <==> Accepted(str, pattern)
  {
    if pattern == [STAR] { return true; }
    var strIdx, patIdx, starIdx, matchIdx := 0, 0, -1, 0;
    while strIdx < |str|
      invariant 0 <= matchIdx <= strIdx <= |str| && -1 <= starIdx < patIdx <= |pattern|
      invariant starIdx == -1 ==> matchIdx == 0
      invariant starIdx == -1 ==> (Accepted(str, pattern) <==> LiteralFirst(str, pattern, strIdx, patIdx))
      invariant starIdx != -1 ==> strIdx - matchIdx == patIdx - starIdx - 1
      invariant starIdx != -1 ==> Aligned(str, pattern, matchIdx, starIdx + 1, strIdx - matchIdx)
      invariant starIdx != -1 ==> (Accepted(str, pattern) <==> LiteralFrom(str, pattern, matchIdx, starIdx + 1))
      decreases |pattern| - starIdx, |str| - matchIdx, |str| - strIdx
    {
      if patIdx < |pattern| && (pattern[patIdx] == str[strIdx] || pattern[patIdx] == QUESTION) {
        if starIdx != -1 { AlignedStep(str, pattern, matchIdx, starIdx + 1, strIdx - matchIdx); }
        strIdx := strIdx + 1;
        patIdx := patIdx + 1;
      } else if patIdx < |pattern| && pattern[patIdx] == STAR {
        if starIdx != -1 {
          ForgetOldStar(str, pattern, matchIdx, starIdx + 1, strIdx - matchIdx);
        } else {
          StarMet(str, pattern, strIdx, patIdx);
        }
        starIdx := patIdx;
        patIdx := patIdx + 1;
        matchIdx := strIdx;
      } else if starIdx != -1 {
        Backtrack(str, pattern, matchIdx, starIdx + 1, strIdx - matchIdx);
        patIdx := starIdx + 1;
        matchIdx := matchIdx + 1;
        strIdx := matchIdx;
      } else {
        return false;
      }
    }
    ghost var reached := patIdx;
    OnlyStarsLeft(str, pattern, reached);
    if starIdx != -1 {
      AtTheEnd(str, pattern, matchIdx, starIdx + 1);
    }
    while patIdx < |pattern| && pattern[patIdx] == STAR
      invariant reached <= patIdx <= |pattern|
      invariant forall t :: reached <= t < patIdx ==> pattern[t] == STAR
    {
      patIdx := patIdx + 1;
    }
    matched := patIdx == |pattern|;
  }

  /** With the string used up, the run in progress decides. */
  lemma {:induction false} AtTheEnd(s: Str, p: Str, m: nat, a: nat)
    requires m <= |s| && Aligned(s, p, m, a, |s| - m)
    ensures LiteralFrom(s, p, m, a) <==> LiteralFirst(s, p, |s|, a + |s| - m)
  {
    AlignedRun(s, p, m, a, |s| - m);
    if LiteralFrom(s, p, m, a) {
      var k :| m <= k <= |s| && LiteralFirst(s, p, k, a);
      NoOvertaking(s, p, m, a, |s| - m, k);
    }
  }

  // ---------- What the relations say of bytes ----------

  lemma {:induction false} GlobSuffix(s: Str, p: Str, i: nat, j: nat)
    requires i <= |s| && j <= |p|
    ensures GlobAt(s, p, i, j) <==> Matches(s[i..], p[j..])
    decreases |p| - j
  {
    ShiftGlob(s, s[i..], p, p[j..], i, 0, j, 0);
  }

  /** The relation depends only on what lies ahead in both strings. */
  lemma {:induction false} ShiftGlob(s: Str, u: Str, p: Str, q: Str, i: nat, i': nat, j: nat, j': nat)
    requires i <= |s| && i' <= |u| && s[i..] == u[i'..]
    requires j <= |p| && j' <= |q| && p[j..] == q[j'..]
    ensures GlobAt(s, p, i, j) <==> GlobAt(u, q, i', j')
    decreases |p| - j, 1
  {
    assert |s| - i == |s[i..]| == |u| - i' && |p| - j == |p[j..]| == |q| - j';
    if j < |p| {
      assert p[j] == p[j..][0] == q[j'] && p[j + 1..] == p[j..][1..] == q[j' + 1..];
      if p[j] == STAR {
        ShiftStar(s, u, p, q, i, i', j, j');
        ShiftStar(u, s, q, p, i', i, j', j);
      } else if i < |s| {
        assert s[i] == s[i..][0] == u[i'] && s[i + 1..] == s[i..][1..] == u[i' + 1..];
        ShiftGlob(s, u, p, q, i + 1, i' + 1, j + 1, j' + 1);
      }
    }
  }

  lemma {:induction false} ShiftStar(s: Str, u: Str, p: Str, q: Str, i: nat, i': nat, j: nat, j': nat)
    requires i <= |s| && i' <= |u| && s[i..] == u[i'..] && |s| - i == |u| - i'
    requires j < |p| && j' < |q| && p[j] == q[j'] == STAR && p[j + 1..] == q[j' + 1..]
    ensures GlobAt(s, p, i, j) ==> GlobAt(u, q, i', j')
    decreases |p| - j, 0
  {
    if GlobAt(s, p, i, j) {
      var k :| i <= k <= |s| && GlobAt(s, p, k, j + 1);
      var k' := i' + (k - i);
      assert s[k..] == s[i..][k - i..] == u[k'..];
      ShiftGlob(s, u, p, q, k, k', j + 1, j' + 1);
    }
  }

  /** The glob language: byte 42 is any run of bytes, byte 63 any one byte, every other
      byte itself, and the pattern covers the whole string. */
  lemma {:induction false} MatchesMeaning(s: Str, c: Byte, p: Str)
    ensures Matches(s, []) <==> s == []
    ensures c == 42 ==> (Matches(s, [c] + p) <==> exists k :: 0 <= k <= |s| && Matches(s[k..], p))
    ensures c == 63 ==> (Matches(s, [c] + p) <==> s != [] && Matches(s[1..], p))
    ensures c != 42 && c != 63 ==> (Matches(s, [c] + p) <==> s != [] && s[0] == c && Matches(s[1..], p))
  {
    var q := [c] + p;
    assert q[1..] == p;
    if c == 42 {
      forall k | 0 <= k <= |s| ensures GlobAt(s, q, k, 1) <==> Matches(s[k..], p) { GlobSuffix(s, q, k, 1); }
      if Matches(s, q) {
        var next := 0 + 1;
        assert GlobAt(s, q, 0, 0) && q[0] == STAR;
        var k :| 0 <= k <= |s| && GlobAt(s, q, k, next);
        assert Matches(s[k..], p);
      }
      if k :| 0 <= k <= |s| && Matches(s[k..], p) {
        var next := 0 + 1;
        assert GlobAt(s, q, k, next);
      }
    } else if s != [] {
      GlobSuffix(s, q, 1, 1);
    }
  }

  /** A pattern without the bytes 42 and 63 matches itself and nothing else. */
  lemma {:induction false} PlainPattern(s: Str, p: Str)
    requires 42 !in p && 63 !in p
    ensures Matches(s, p) <==> s == p
    ensures Accepted(s, p) <==> s == p
    decreases |p|
  {
    if p == [] {
      assert LiteralFirst(s, p, 0, 0) <==> s == [];
    } else {
      PlainAt(s, p, 0);
      PlainLiteral(s, p, 0);
      assert s[0..] == s && p[0..] == p;
    }
  }

  lemma {:induction false} PlainAt(s: Str, p: Str, j: nat)
    requires 42 !in p && 63 !in p && j <= |p| && j <= |s|
    ensures GlobAt(s, p, j, j) <==> s[j..] == p[j..]
    decreases |p| - j
  {
    if j < |p| {
      if j < |s| {
        PlainAt(s, p, j + 1);
        assert s[j..] == [s[j]] + s[j + 1..] && p[j..] == [p[j]] + p[j + 1..];
      } else {
        assert |s[j..]| == 0 && |p[j..]| > 0;
      }
    }
  }

  lemma {:induction false} PlainLiteral(s: Str, p: Str, j: nat)
    requires 42 !in p && 63 !in p && j <= |p| && j <= |s|
    ensures LiteralFirst(s, p, j, j) <==> s[j..] == p[j..]
    decreases |p| - j
  {
    if j < |p| {
      if j < |s| {
        PlainLiteral(s, p, j + 1);
        assert s[j..] == [s[j]] + s[j + 1..] && p[j..] == [p[j]] + p[j + 1..];
      } else {
        assert |s[j..]| == 0 && |p[j..]| > 0;
      }
    }
  }

  // ---------- Against the glob relation ----------

  /** The matcher never accepts a string the pattern does not match. */
  lemma {:induction false} AcceptedMatches(s: Str, p: Str, i: nat, j: nat)
    requires i <= |s| && j <= |p| && LiteralFirst(s, p, i, j)
    ensures GlobAt(s, p, i, j)
    decreases |p| - j
  {
    if j < |p| {
      if SameByte(s, p, i, j) {
        AcceptedMatches(s, p, i + 1, j + 1);
      } else {
        var k :| i <= k <= |s| && LiteralFirst(s, p, k, j + 1);
        AcceptedMatches(s, p, k, j + 1);
      }
    }
  }

  /** On a string without '*' it accepts everything the pattern matches. */
  lemma {:induction false} MatchesAccepted(s: Str, p: Str, i: nat, j: nat)
    requires i <= |s| && j <= |p| && GlobAt(s, p, i, j) && STAR !in s
    ensures LiteralFirst(s, p, i, j)
    decreases |p| - j
  {
    if j < |p| {
      if p[j] == STAR {
        var k :| i <= k <= |s| && GlobAt(s, p, k, j + 1);
        MatchesAccepted(s, p, k, j + 1);
      } else {
        MatchesAccepted(s, p, i + 1, j + 1);
      }
    }
  }

  lemma StarMatchesAll(s: Str)
    ensures Matches(s, [STAR])
  {
    assert GlobAt(s, [STAR], |s|, 1);
  }

  /** The pattern that shows a string with a '*' going wrong: its prefix, a star, and '?'s to the end. */
  function Witness(s: Str, i: nat): Str
    requires i < |s|
  {
    s[..i] + [STAR] + seq(|s| - i, _ => QUESTION)
  }

  lemma {:induction false} WitnessTail(s: Str, p: Str, i: nat, j: nat)
    requires i <= |s| && j <= |p| && forall t :: j <= t < |p| ==> p[t] == QUESTION
    ensures GlobAt(s, p, i, j) <==> |s| - i == |p| - j
    ensures LiteralFirst(s, p, i, j) <==> |s| - i == |p| - j
    decreases |p| - j
  {
    if j < |p| && i < |s| { WitnessTail(s, p, i + 1, j + 1); }
  }

  lemma {:induction false} WitnessPrefix(s: Str, p: Str, i: nat, j: nat)
    requires j <= i <= |s| && i <= |p| && s[..i] == p[..i] && STAR !in s[..i]
    ensures GlobAt(s, p, j, j) <==> GlobAt(s, p, i, i)
    ensures LiteralFirst(s, p, j, j) <==> LiteralFirst(s, p, i, i)
    decreases i - j
  {
    if j < i {
      assert s[..i][j] == s[j] && p[..i][j] == p[j];
      WitnessPrefix(s, p, i, j + 1);
    }
  }

  lemma WitnessFails(s: Str, i: nat)
    requires i < |s| && s[i] == STAR && STAR !in s[..i]
    ensures Matches(s, Witness(s, i)) && !Accepted(s, Witness(s, i))
  {
    var p := Witness(s, i);
    assert |p| == |s| + 1 && p[i] == STAR && forall t :: i < t < |p| ==> p[t] == QUESTION;
    assert p[..i] == s[..i];
    WitnessPrefix(s, p, i, 0);
    WitnessTail(s, p, i, i + 1);
    WitnessTail(s, p, i + 1, i + 1);
    assert GlobAt(s, p, i, i + 1);
  }

  /** KEYS is exact for a key, whatever the pattern, if and only if the key has no '*'. */
  lemma ExactIffNoStar(s: Str)
    ensures (forall p :: Accepted(s, p) <==> Matches(s, p)) <==> 42 !in s
  {
    if STAR !in s {
      forall p ensures Accepted(s, p) <==> Matches(s, p) {
        StarMatchesAll(s);
        if LiteralFirst(s, p, 0, 0) { AcceptedMatches(s, p, 0, 0); }
        if Matches(s, p) { MatchesAccepted(s, p, 0, 0); }
      }
    } else {
      var i := FirstStar(s);
      WitnessFails(s, i);
      assert !(Accepted(s, Witness(s, i)) <==> Matches(s, Witness(s, i)));
    }
  }

  lemma FirstStar(s: Str) returns (i: nat)
    requires STAR in s
    ensures i < |s| && s[i] == STAR && STAR !in s[..i]
  {
    i := 0;
    while s[i] != STAR
      invariant i < |s| && STAR !in s[..i] && STAR in s[i..]
      decreases |s| - i
    {
      assert s[..i + 1] == s[..i] + [s[i]] && s[i..] == [s[i]] + s[i + 1..];
      i := i + 1;
    }
  }
}
