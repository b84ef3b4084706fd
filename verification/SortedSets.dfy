/** A sorted set: a map from members to scores, indexed by an AVL tree over
    (score, member), and the queries that read the index. */
module SortedSets {
  import opened Basics
  import opened Orders
  import opened AvlHeap
  import C = AvlContents
  import Q = AvlQueries

  /** The keys the index must hold. */
  ghost function Entries(scores: map<Str, real>): set<Entry> {
    set m | m in scores :: Entry(scores[m], m)
  }

  ghost function IndexOf(scores: map<Str, real>): map<Entry, bool> {
    map e | e in Entries(scores) :: true
  }

  /** The scores after adding each item in turn; a repeated member keeps its last score. */
  ghost function AddAll(scores: map<Str, real>, items: seq<(Str, real)>): map<Str, real> {
    if items == [] then scores
    else var n := |items| - 1; AddAll(scores, items[..n])[items[n].0 := items[n].1]
  }

  /** Item i is the last one for member m; some item is for member m. */
  ghost predicate IsLast(items: seq<(Str, real)>, m: Str, i: nat) {
    i < |items| && items[i].0 == m && forall j :: i < j < |items| ==> items[j].0 != m
  }

  ghost predicate Mentions(items: seq<(Str, real)>, m: Str) { exists i :: 0 <= i < |items| && items[i].0 == m }

  /** A member has the score of its last item, or keeps its old one if it has no item. */
  ghost predicate LastScoreWins(before: map<Str, real>, items: seq<(Str, real)>, after: map<Str, real>) {
    && (forall m, i: nat :: IsLast(items, m, i) ==> m in after && after[m] == items[i].1)
    && (forall m :: !Mentions(items, m) ==> (m in after <==> m in before) && (m in after ==> after[m] == before[m]))
  }

  /** The last item for somebody else changes nothing for m. */
  lemma {:induction false} LastInFront(items: seq<(Str, real)>, m: Str)
    requires items != [] && items[|items| - 1].0 != m
    ensures forall i: nat :: IsLast(items, m, i) ==> IsLast(items[..|items| - 1], m, i) && items[..|items| - 1][i] == items[i]
    ensures Mentions(items[..|items| - 1], m) ==> Mentions(items, m)
  {
    var n := |items| - 1;
    if Mentions(items[..n], m) {
      var i :| 0 <= i < n && items[..n][i].0 == m;
      assert items[i].0 == m;
    }
  }

  lemma {:induction false} LastAtEnd(items: seq<(Str, real)>, m: Str)
    requires items != [] && items[|items| - 1].0 == m
    ensures forall i: nat :: IsLast(items, m, i) ==> i == |items| - 1
    ensures Mentions(items, m)
  {
  }

  lemma {:induction false} AddAllAt(scores: map<Str, real>, items: seq<(Str, real)>, m: Str)
    ensures forall i: nat :: IsLast(items, m, i) ==> m in AddAll(scores, items) && AddAll(scores, items)[m] == items[i].1
    ensures var after := AddAll(scores, items);
            !Mentions(items, m) ==> (m in after <==> m in scores) && (m in after ==> after[m] == scores[m])
  {
    if items != [] {
      if items[|items| - 1].0 != m {
        AddAllAt(scores, items[..|items| - 1], m);
        LastInFront(items, m);
      } else {
        LastAtEnd(items, m);
      }
    }
  }

  lemma {:induction false} AddAllMeaning(scores: map<Str, real>, items: seq<(Str, real)>)
    ensures LastScoreWins(scores, items, AddAll(scores, items))
  {
    forall m { AddAllAt(scores, items, m); }
  }

  /** The scores without the listed members. */
  ghost function DropAll(scores: map<Str, real>, members: seq<Str>): map<Str, real> {
    map m | m in scores && m !in members :: scores[m]
  }

  lemma DropStep(scores: map<Str, real>, members: seq<Str>, i: nat)
    requires i < |members|
    ensures DropAll(scores, members[..i]) - {members[i]} == DropAll(scores, members[..i + 1])
  {
  }

  lemma IndexUpdate(scores: map<Str, real>, m: Str, score: real)
    ensures var kept := if m in scores then IndexOf(scores) - {Entry(scores[m], m)} else IndexOf(scores);
            kept[Entry(score, m) := true] == IndexOf(scores[m := score])
    ensures Entry(score, m) in IndexOf(scores) <==> m in scores && scores[m] == score
  {
    assert forall e :: e in Entries(scores) <==> e.member in scores && e.score == scores[e.member];
    var scores' := scores[m := score];
    assert forall e :: e in Entries(scores') <==> e.member in scores' && e.score == scores'[e.member];
  }

  /** Out with the old entry, in with the new one. */
  lemma {:induction false} RescoredIndex(scores: map<Str, real>, m: Str, score: real)
    requires m in scores
    ensures var was, now := Entry(scores[m], m), Entry(score, m);
            && was in IndexOf(scores) && now !in IndexOf(scores) - {was}
            && (IndexOf(scores) - {was})[now := true] == IndexOf(scores[m := score])
    ensures |scores[m := score]| == |scores|
  {
    IndexDelete(scores, m);
    IndexUpdate(scores, m, score);
    assert scores[m := score].Keys == scores.Keys;
  }

  lemma IndexDelete(scores: map<Str, real>, m: Str)
    requires m in scores
    ensures IndexOf(scores) - {Entry(scores[m], m)} == IndexOf(scores - {m})
    ensures Entry(scores[m], m) in IndexOf(scores)
    ensures |scores - {m}| == |scores| - 1
  {
    assert (scores - {m}).Keys == scores.Keys - {m};
    assert forall e :: e in Entries(scores) <==> e.member in scores && e.score == scores[e.member];
    var scores' := scores - {m};
    assert forall e :: e in Entries(scores') <==> e.member in scores' && e.score == scores'[e.member];
  }

  ghost predicate Increasing(s: seq<Entry>) {
    forall i, j :: 0 <= i < j < |s| ==> EntryLess(s[i], s[j])
  }

  /** r lists the members of the set in (score, member) order, once each. */
  ghost predicate IsRanking(r: seq<Entry>, scores: map<Str, real>) {
    && Increasing(r)
    && (forall e :: e in r <==> e in Entries(scores))
  }

  ghost function Keys(s: seq<(Entry, bool)>): (r: seq<Entry>)
    ensures |r| == |s| && forall i :: 0 <= i < |r| ==> r[i] == s[i].0
  {
    if s == [] then [] else [s[0].0] + Keys(s[1..])
  }

  /** There is one ranking, so every query stated on it depends on the scores alone. */
  lemma {:induction false} RankingIsUnique(r: seq<Entry>, u: seq<Entry>, scores: map<Str, real>)
    requires IsRanking(r, scores) && IsRanking(u, scores)
    ensures r == u
  {
    EntryLessStrictTotal();
    SameSortedList(r, u);
  }

  lemma {:induction false} SameSortedList(r: seq<Entry>, u: seq<Entry>)
    requires StrictTotal(EntryLess)
    requires Increasing(r)
    requires Increasing(u)
    requires forall e :: e in r <==> e in u
    ensures r == u
  {
    assert r == [] <==> u == [] by {
      assert r != [] ==> r[0] in u;
      assert u != [] ==> u[0] in r;
    }
    if r != [] {
      assert r[0] in u && u[0] in r;
      assert r[0] == u[0];
      forall e ensures e in r[1..] <==> e in u[1..] {
        assert e in r <==> e == r[0] || e in r[1..];
        assert e in u <==> e == u[0] || e in u[1..];
      }
      SameSortedList(r[1..], u[1..]);
      assert r == [r[0]] + r[1..] && u == [u[0]] + u[1..];
    }
  }

  // ---------- What the range queries mean ----------

  function Report(e: Entry, withScores: bool): (Str, real) {
    (e.member, if withScores then e.score else 0.0)
  }

  /** The reply lists these entries: members in order, each with its score or, without scores, with 0. */
  ghost predicate Lists(r: seq<(Str, real)>, part: seq<Entry>, withScores: bool) {
    && |r| == |part|
    && forall k :: 0 <= k < |r| ==> r[k].0 == part[k].member && r[k].1 == if withScores then part[k].score else 0.0
  }

  /** normalize_index. */
  function NormalizeIndex(n: nat, index: int): int {
    if index < 0 then n + index else index
  }

  /** The ranks start..stop, counted from the end when negative, cut to the ranks there are. */
  ghost function Slice(r: seq<Entry>, start: int, stop: int): seq<Entry> {
    var lo := var a := NormalizeIndex(|r|, start); if a < 0 then 0 else a;
    var hi := var b := NormalizeIndex(|r|, stop); if b >= |r| then |r| - 1 else b;
    if lo > hi then [] else r[lo..hi + 1]
  }

  /** A reply of zrange against the ranking: a negative index counts from the end, an
      index beyond either end is cut to it, and both ends are included. */
  ghost predicate ListsRanks(r: seq<(Str, real)>, ranking: seq<Entry>, start: int, stop: int, withScores: bool) {
    var n := |ranking|;
    var first := if start < 0 then n + start else start;
    var last := if stop < 0 then n + stop else stop;
    var lo := if first < 0 then 0 else first;
    var hi := if last >= n then n - 1 else last;
    && |r| == (if lo <= hi then hi - lo + 1 else 0)
    && forall k :: 0 <= k < |r| ==>
         r[k].0 == ranking[lo + k].member && r[k].1 == if withScores then ranking[lo + k].score else 0.0
  }

  lemma RanksListed(r: seq<(Str, real)>, ranking: seq<Entry>, start: int, stop: int, withScores: bool)
    requires Lists(r, Slice(ranking, start, stop), withScores)
    ensures ListsRanks(r, ranking, start, stop, withScores)
    ensures start == 0 && stop == -1 ==> Lists(r, ranking, withScores)
  {
  }

  /** zrange at a member's own rank is that member. */
  lemma SliceAtRank(r: seq<Entry>, i: nat)
    requires i < |r|
    ensures Slice(r, i, i) == [r[i]]
    ensures Slice(r, i - |r|, i - |r|) == [r[i]]
  {
  }

  /** The entries with min <= score <= max. */
  ghost function ByScore(s: seq<Entry>, min: real, max: real): seq<Entry> {
    if s == [] then []
    else (if min <= s[0].score <= max then [s[0]] else []) + ByScore(s[1..], min, max)
  }

  /** The string the program takes for the greatest member. */
  const MAX_MEMBER: Str := [255]

  /** An entry the upper bound (max, "\xff") cuts off although its score is in range. */
  predicate CutOff(e: Entry, max: real) {
    e.score == max && LexLess(MAX_MEMBER, e.member)
  }

  /** Cut off are, at the maximum score, the members of two or more bytes that begin with 255. */
  lemma {:induction false} CutOffExactly(e: Entry, max: real)
    ensures CutOff(e, max) <==> e.score == max && |e.member| >= 2 && e.member[0] == 255
  {
    LexLessMeaning(MAX_MEMBER, e.member);
    if e.score == max && |e.member| >= 2 && e.member[0] == 255 {
      assert MAX_MEMBER[..1] == e.member[..1];
    }
  }

  /** ByScore without the entries that are cut off. */
  ghost function Reached(s: seq<Entry>, min: real, max: real): seq<Entry> {
    if s == [] then []
    else (if min <= s[0].score <= max && !CutOff(s[0], max) then [s[0]] else []) + Reached(s[1..], min, max)
  }

  lemma {:induction false} ByScoreMeaning(s: seq<Entry>, min: real, max: real)
    ensures forall e :: e in ByScore(s, min, max) <==> e in s && min <= e.score <= max
  {
    if s != [] {
      ByScoreMeaning(s[1..], min, max);
      assert s == [s[0]] + s[1..];
    }
  }

  /** Filtering keeps the order, so nothing is reported twice. */
  lemma {:induction false} ByScoreKeepsOrder(s: seq<Entry>, min: real, max: real)
    requires Increasing(s)
    ensures var f := ByScore(s, min, max); Increasing(f)
  {
    if s != [] {
      ByScoreKeepsOrder(s[1..], min, max);
      ByScoreMeaning(s[1..], min, max);
      var f := ByScore(s[1..], min, max);
      forall j | 0 <= j < |f| ensures EntryLess(s[0], f[j]) {
        assert f[j] in f;
        assert f[j] in s[1..];
      }
      if min <= s[0].score <= max {
        assert ByScore(s, min, max) == [s[0]] + f;
      } else {
        assert ByScore(s, min, max) == f;
      }
    }
  }

  /** The score is in range and the member is not of the kind that is cut off. */
  ghost predicate InReach(m: Str, score: real, min: real, max: real) {
    min <= score <= max && !(score == max && |m| >= 2 && m[0] == 255)
  }

  lemma {:induction false} ReachedMeaning(s: seq<Entry>, min: real, max: real)
    ensures forall e :: e in Reached(s, min, max) <==> e in s && InReach(e.member, e.score, min, max)
  {
    if s != [] {
      ReachedMeaning(s[1..], min, max);
      CutOffExactly(s[0], max);
      assert s == [s[0]] + s[1..];
    }
  }

  lemma {:induction false} ReachedKeepsOrder(s: seq<Entry>, min: real, max: real)
    requires Increasing(s)
    ensures Increasing(Reached(s, min, max))
  {
    if s != [] {
      ReachedKeepsOrder(s[1..], min, max);
      ReachedMeaning(s[1..], min, max);
      var f := Reached(s[1..], min, max);
      forall j | 0 <= j < |f| ensures EntryLess(s[0], f[j]) {
        assert f[j] in f;
        assert f[j] in s[1..];
      }
      if min <= s[0].score <= max && !CutOff(s[0], max) {
        assert Reached(s, min, max) == [s[0]] + f;
      } else {
        assert Reached(s, min, max) == f;
      }
    }
  }

  /** A reply of zrangebyscore against the scores alone: who is listed, with what, in which order. */
  ghost predicate ListsInReach(r: seq<(Str, real)>, scores: map<Str, real>, min: real, max: real, withScores: bool) {
    && (forall k :: 0 <= k < |r| ==>
          && r[k].0 in scores && InReach(r[k].0, scores[r[k].0], min, max)
          && r[k].1 == if withScores then scores[r[k].0] else 0.0)
    && (forall m :: m in scores && InReach(m, scores[m], min, max) ==> exists k :: 0 <= k < |r| && r[k].0 == m)
    && (forall i, j :: 0 <= i < j < |r| ==> EntryLess(Entry(scores[r[i].0], r[i].0), Entry(scores[r[j].0], r[j].0)))
  }

  lemma {:induction false} ReachedListed(r: seq<(Str, real)>, ranking: seq<Entry>, scores: map<Str, real>,
                                         min: real, max: real, withScores: bool)
    requires IsRanking(ranking, scores) && Lists(r, Reached(ranking, min, max), withScores)
    ensures ListsInReach(r, scores, min, max, withScores)
  {
    var f := Reached(ranking, min, max);
    ReachedMeaning(ranking, min, max);
    ReachedKeepsOrder(ranking, min, max);
    forall k | 0 <= k < |f|
      ensures f[k].member in scores && scores[f[k].member] == f[k].score && InReach(f[k].member, f[k].score, min, max)
    {
      assert f[k] in f;
    }
    forall m | m in scores && InReach(m, scores[m], min, max) ensures exists k :: 0 <= k < |r| && r[k].0 == m {
      assert Entry(scores[m], m) in f;
      var k :| 0 <= k < |f| && f[k] == Entry(scores[m], m);
      assert r[k].0 == m;
    }
  }

  /** No member is listed twice, so the length of the list is the number of members in reach. */
  lemma {:induction false} ListedOnce(r: seq<(Str, real)>, scores: map<Str, real>, min: real, max: real, withScores: bool)
    requires ListsInReach(r, scores, min, max, withScores)
    ensures |r| == |set m | m in scores && InReach(m, scores[m], min, max)|
  {
    var names := seq(|r|, k requires 0 <= k < |r| => r[k].0);
    EntryLessStrictTotal();
    forall i, j | 0 <= i < j < |names| ensures names[i] != names[j] {
      assert EntryLess(Entry(scores[r[i].0], r[i].0), Entry(scores[r[j].0], r[j].0));
    }
    DistinctSize(names);
    forall m ensures m in names <==> m in scores && InReach(m, scores[m], min, max) {
      if m in names {
        var k :| 0 <= k < |names| && names[k] == m;
        assert r[k].0 == m;
      }
      if k :| 0 <= k < |r| && r[k].0 == m { assert names[k] == m; }
    }
    assert (set m | m in names) == set m | m in scores && InReach(m, scores[m], min, max);
  }

  lemma {:induction false} DistinctSize(s: seq<Str>)
    requires forall i, j :: 0 <= i < j < |s| ==> s[i] != s[j]
    ensures |set x | x in s| == |s|
  {
    if s != [] {
      var n := |s| - 1;
      DistinctSize(s[..n]);
      assert (set x | x in s) == (set x | x in s[..n]) + {s[n]};
    } else {
      assert (set x | x in s) == {};
    }
  }

  lemma {:induction false} ByScoreSnoc(s: seq<Entry>, e: Entry, min: real, max: real)
    ensures ByScore(s + [e], min, max) == ByScore(s, min, max) + (if min <= e.score <= max then [e] else [])
  {
    if s != [] {
      ByScoreSnoc(s[1..], e, min, max);
      assert (s + [e])[1..] == s[1..] + [e];
    }
  }

  /** The 0xff bound is harmless exactly when it cuts nothing off; then, and only then, the count is right too. */
  lemma {:induction false} ReachedIsExact(s: seq<Entry>, min: real, max: real)
    ensures |Reached(s, min, max)| <= |ByScore(s, min, max)|
    ensures Reached(s, min, max) == ByScore(s, min, max)
            <==> forall e :: e in s && min <= max ==> !CutOff(e, max)
    ensures |Reached(s, min, max)| == |ByScore(s, min, max)|
            <==> Reached(s, min, max) == ByScore(s, min, max)
  {
    if s != [] {
      ReachedIsExact(s[1..], min, max);
      assert s == [s[0]] + s[1..];
      if min <= s[0].score <= max && CutOff(s[0], max) {
        assert s[0] in s;
      } else {
        var x := if min <= s[0].score <= max then [s[0]] else [];
        assert Reached(s, min, max)[|x|..] == Reached(s[1..], min, max);
        assert ByScore(s, min, max)[|x|..] == ByScore(s[1..], min, max);
      }
    }
  }

  /** A member one byte longer than the bound is lost. */
  lemma LongMemberIsCutOff()
    ensures var e := Entry(1.0, [255, 255]);
            ByScore([e], 0.0, 1.0) == [e] && Reached([e], 0.0, 1.0) == []
  {
  }

  lemma InRangeMeaning(e: Entry, min: real, max: real)
    ensures Q.InRange(EntryLess, Entry(min, []), Entry(max, MAX_MEMBER), e)
            <==> min <= e.score <= max && !CutOff(e, max)
  {
  }

  /** Walking the tree between the two dummy entries, then testing the score, visits Reached. */
  lemma {:induction false} RangeReaches(s: seq<(Entry, bool)>, min: real, max: real)
    ensures ByScore(Keys(Q.Between(EntryLess, s, Entry(min, []), Entry(max, MAX_MEMBER))), min, max)
         == Reached(Keys(s), min, max)
  {
    if s != [] {
      var lo, hi := Entry(min, []), Entry(max, MAX_MEMBER);
      RangeReaches(s[1..], min, max);
      InRangeMeaning(s[0].0, min, max);
      assert Keys(s)[1..] == Keys(s[1..]);
      var rest := Q.Between(EntryLess, s[1..], lo, hi);
      if Q.InRange(EntryLess, lo, hi, s[0].0) {
        assert ([s[0]] + rest)[1..] == rest;
        assert Keys([s[0]] + rest)[1..] == Keys(rest);
      } else {
        assert Q.Between(EntryLess, s, lo, hi) == rest;
      }
    }
  }

  lemma ListsSnoc(r: seq<(Str, real)>, part: seq<Entry>, e: Entry, withScores: bool)
    requires Lists(r, part, withScores)
    ensures Lists(r + [Report(e, withScores)], part + [e], withScores)
  {
  }

  /** The copying loop of zrange. */
  method CopyRanks(all: seq<(Entry, bool)>, lo: nat, hi: int, withScores: bool) returns (r: seq<(Str, real)>)
    requires lo <= hi < |all|
    ensures |r| == hi + 1 - lo
    ensures forall k :: 0 <= k < |r| ==>
              && r[k].0 == all[lo + k].0.member
              && r[k].1 == if withScores then all[lo + k].0.score else 0.0
  {
    r := [];
    var i := lo;
    while i <= hi && i < |all|
      invariant lo <= i <= hi + 1 && |r| == i - lo
      invariant forall k :: 0 <= k < |r| ==>
                  && r[k].0 == all[lo + k].0.member
                  && r[k].1 == if withScores then all[lo + k].0.score else 0.0
    {
      r := r + [Report(all[i].0, withScores)];
      i := i + 1;
    }
  }

  /** zrange on the list of all entries: normalise, clamp, copy. */
  method ReportSlice(all: seq<(Entry, bool)>, start: int, stop: int, withScores: bool) returns (r: seq<(Str, real)>)
    ensures Lists(r, Slice(Keys(all), start, stop), withScores)
  {
    var lo := NormalizeIndex(|all|, start);
    var hi := NormalizeIndex(|all|, stop);
    if lo < 0 { lo := 0; }
    if hi >= |all| { hi := |all| - 1; }
    if lo > hi { return []; }
    r := CopyRanks(all, lo, hi, withScores);
    CopiedLists(all, lo, hi, withScores, r);
    assert Slice(Keys(all), start, stop) == Keys(all)[lo..hi + 1];
  }

  lemma {:induction false} CopiedLists(all: seq<(Entry, bool)>, lo: nat, hi: int, withScores: bool, r: seq<(Str, real)>)
    requires lo <= hi < |all| && |r| == hi + 1 - lo
    requires forall k :: 0 <= k < |r| ==>
               && r[k].0 == all[lo + k].0.member
               && r[k].1 == if withScores then all[lo + k].0.score else 0.0
    ensures Lists(r, Keys(all)[lo..hi + 1], withScores)
  {
    var ks := Keys(all);
    var part := ks[lo..hi + 1];
    forall k | 0 <= k < |r| ensures part[k] == all[lo + k].0 {
      assert part[k] == ks[lo + k];
    }
  }

  /** The copying loop of zrangebyscore. */
  method ReportScores(entries: seq<(Entry, bool)>, min: real, max: real, withScores: bool) returns (r: seq<(Str, real)>)
    ensures Lists(r, ByScore(Keys(entries), min, max), withScores)
  {
    r := [];
    ghost var ks, kept := Keys(entries), [];
    for i := 0 to |entries|
      invariant kept == ByScore(ks[..i], min, max)
      invariant Lists(r, kept, withScores)
    {
      var e := entries[i].0;
      assert kept + (if min <= e.score <= max then [e] else []) == ByScore(ks[..i + 1], min, max) by {
        ByScoreSnoc(ks[..i], e, min, max);
        assert ks[..i + 1] == ks[..i] + [e];
      }
      if e.score >= min && e.score <= max {
        ListsSnoc(r, kept, e, withScores);
        r := r + [Report(e, withScores)];
        kept := kept + [e];
      }
    }
    assert ks[..|entries|] == ks;
  }

  // ---------- The object ----------

  class SortedSet {
    const tree: AvlTree
    var scores: map<Str, real>
    var size: nat

    /** The tree's keys are exactly the (score, member) pairs, and the three sizes agree. */
    ghost predicate Valid()
      reads this, tree, tree.root, ReprOf(tree.root)
    {
      && tree.Valid()
      && tree.Contents() == IndexOf(scores)
      && size == tree.size == |scores|
    }

    /** The members in rank order. */
    ghost function Ranking(): seq<Entry>
      reads this, tree, tree.root
    {
      Keys(tree.Pairs())
    }

    constructor ()
      ensures Valid() && scores == map[]
      ensures fresh(tree) && fresh(ReprOf(tree.root))
    {
      tree := new AvlTree();
      scores, size := map[], 0;
    }

    /** The index order is the ranking of the score map. */
    lemma RankingOfScores()
      requires Valid()
      ensures IsRanking(Ranking(), scores) && |Ranking()| == size
    {
      forall e ensures e in Ranking() <==> e in Entries(scores) {
        C.MapKeys(tree.Pairs(), e);
        assert e in Ranking() <==> C.HasKey(tree.Pairs(), e);
      }
    }

    lemma {:induction false} ReachedInReach(r: seq<(Str, real)>, min: real, max: real, withScores: bool)
      requires Valid() && Lists(r, Reached(Ranking(), min, max), withScores)
      ensures ListsInReach(r, scores, min, max, withScores)
    {
      RankingOfScores();
      ReachedListed(r, Ranking(), scores, min, max, withScores);
    }

    method ZAdd(member: Str, score: real) returns (added: nat)
      requires Valid()
      modifies this, tree, ReprOf(tree.root)
      ensures Valid() && fresh(ReprOf(tree.root) - old(ReprOf(tree.root)))
      ensures scores == old(scores)[member := score]
      ensures added == |scores| - |old(scores)|
    {
      if member in scores {
        Rescore(member, score);
        added := 0;
      } else {
        IndexUpdate(scores, member, score);
        scores := scores[member := score];
        var inserted := tree.Insert(Entry(score, member), true);
        size := size + 1;
        added := 1;
      }
    }

    /** The update branch of zadd: the old entry leaves the tree before the new one enters. */
    method Rescore(member: Str, score: real)
      requires Valid() && member in scores
      modifies this, tree, ReprOf(tree.root)
      ensures Valid() && fresh(ReprOf(tree.root) - old(ReprOf(tree.root)))
      ensures scores == old(scores)[member := score] && |scores| == |old(scores)|
    {
      RescoredIndex(scores, member, score);
      var removed := tree.Remove(Entry(scores[member], member));
      scores := scores[member := score];
      var inserted := tree.Insert(Entry(score, member), true);
    }

    method ZAddMulti(items: seq<(Str, real)>) returns (added: nat)
      requires Valid()
      modifies this, tree, ReprOf(tree.root)
      ensures Valid() && fresh(ReprOf(tree.root) - old(ReprOf(tree.root)))
      ensures scores == AddAll(old(scores), items) && LastScoreWins(old(scores), items, scores)
      ensures added == |scores| - |old(scores)|
    {
      added := 0;
      for i := 0 to |items|
        invariant Valid() && fresh(ReprOf(tree.root) - old(ReprOf(tree.root)))
        invariant scores == AddAll(old(scores), items[..i])
        invariant added == |scores| - |old(scores)|
      {
        assert items[..i + 1][..i] == items[..i];
        var n := ZAdd(items[i].0, items[i].1);
        added := added + n;
      }
      AddAllMeaning(old(scores), items);
      assert items[..|items|] == items;
    }

    method ZRem(member: Str) returns (removed: nat)
      requires Valid()
      modifies this, tree, ReprOf(tree.root)
      ensures Valid() && fresh(ReprOf(tree.root) - old(ReprOf(tree.root)))
      ensures scores == old(scores) - {member}
      ensures removed == |old(scores)| - |scores|
    {
      if member !in scores {
        assert scores - {member} == scores;
        return 0;
      }
      IndexDelete(scores, member);
      var gone := tree.Remove(Entry(scores[member], member));
      scores := scores - {member};
      size := size - 1;
      removed := 1;
    }

    method ZRemMulti(members: seq<Str>) returns (removed: nat)
      requires Valid()
      modifies this, tree, ReprOf(tree.root)
      ensures Valid() && fresh(ReprOf(tree.root) - old(ReprOf(tree.root)))
      ensures scores == DropAll(old(scores), members)
      ensures removed == |old(scores)| - |scores|
    {
      removed := 0;
      for i := 0 to |members|
        invariant Valid() && fresh(ReprOf(tree.root) - old(ReprOf(tree.root)))
        invariant scores == DropAll(old(scores), members[..i])
        invariant removed == |old(scores)| - |scores|
      {
        DropStep(old(scores), members, i);
        var n := ZRem(members[i]);
        removed := removed + n;
      }
      assert members[..|members|] == members;
    }

    method Clear()
      modifies this, tree
      ensures Valid() && scores == map[] && tree.root == null
    {
      tree.Clear();
      scores, size := map[], 0;
    }

    /** The score under which the member is ranked; nothing exactly when no entry of the ranking is its. */
    method ZScore(member: Str) returns (r: Option<real>)
      requires Valid()
      ensures forall score :: r == Some(score) <==> Entry(score, member) in Ranking()
      ensures r.None? <==> forall e :: e in Ranking() ==> e.member != member
    {
      RankingOfScores();
      r := if member in scores then Some(scores[member]) else None;
    }

    /** The position of the member in the ranking; nothing exactly when it is not a member. */
    method ZRank(member: Str) returns (r: Option<int>)
      requires Valid()
      ensures r.None? <==> member !in scores
      ensures r.Some? ==> 0 <= r.value < |Ranking()| && Ranking()[r.value] == Entry(scores[member], member)
    {
      if member !in scores { return None; }
      var e := Entry(scores[member], member);
      IndexDelete(scores, member);
      var rank := tree.Rank(e);
      r := Some(rank);
    }

    /** The position counted from the end. */
    method ZRevRank(member: Str) returns (r: Option<int>)
      requires Valid()
      ensures r.None? <==> member !in scores
      ensures r.Some? ==> 0 <= r.value < |Ranking()|
                          && Ranking()[|Ranking()| - 1 - r.value] == Entry(scores[member], member)
    {
      var rank := ZRank(member);
      r := if rank.Some? then Some(size - 1 - rank.value) else None;
    }

    method ZRange(start: int, stop: int, withScores: bool) returns (r: seq<(Str, real)>)
      requires Valid()
      ensures ListsRanks(r, Ranking(), start, stop, withScores)
      ensures start == 0 && stop == -1 ==> Lists(r, Ranking(), withScores)
    {
      var all := tree.Inorder();
      r := ReportSlice(all, start, stop, withScores);
      RanksListed(r, Ranking(), start, stop, withScores);
    }

    /** Every entry with min <= score <= max that the 0xff bound lets through, in rank order. */
    method ZRangeByScore(min: real, max: real, withScores: bool) returns (r: seq<(Str, real)>)
      requires Valid()
      ensures Lists(r, Reached(Ranking(), min, max), withScores)
      ensures ListsInReach(r, scores, min, max, withScores)
    {
      r := WalkScores(min, max, withScores);
      ReachedInReach(r, min, max, withScores);
    }

    /** The walk and the copying loop. */
    method WalkScores(min: real, max: real, withScores: bool) returns (r: seq<(Str, real)>)
      requires Valid()
      ensures Lists(r, Reached(Ranking(), min, max), withScores)
    {
      var entries := tree.Range(Entry(min, []), Entry(max, MAX_MEMBER));
      RangeReaches(tree.Pairs(), min, max);
      r := ReportScores(entries, min, max, withScores);
    }

    method ZCount(min: real, max: real) returns (n: nat)
      requires Valid()
      ensures n == |Reached(Ranking(), min, max)|
      ensures n == |set m | m in scores && InReach(m, scores[m], min, max)|
    {
      var range := ZRangeByScore(min, max, false);
      ListedOnce(range, scores, min, max, false);
      n := |range|;
    }
  }
}
