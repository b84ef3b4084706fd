/** The chained hash table as a value: buckets of pairs and the map they store. The
    hash function is a parameter: everything here holds for MurmurHash3 and for any
    other function of the key. */
module Chains {
  import opened Orders

  /** A bucket: the nodes in link order. */
  type Chain = seq<(Str, Str)>

  type Hash = Str -> nat

  function Slot(h: Hash, capacity: nat, key: Str): (b: nat)
    requires capacity > 0
    ensures b < capacity
  {
    h(key) % capacity
  }

  /** The number of nodes in all chains. */
  ghost function Total(buckets: seq<Chain>): nat {
    if buckets == [] then 0 else |buckets[0]| + Total(buckets[1..])
  }

  ghost predicate DistinctKeys(c: Chain) {
    forall i, j :: 0 <= i < j < |c| ==> c[i].0 != c[j].0
  }

  ghost predicate HasKey(c: Chain, key: Str) {
    exists i :: 0 <= i < |c| && c[i].0 == key
  }

  /** Chain c holds exactly the part of m that belongs in bucket b, each key once. */
  ghost predicate StoresPart(h: Hash, capacity: nat, b: nat, c: Chain, m: map<Str, Str>)
    requires capacity > 0
  {
    && DistinctKeys(c)
    && (forall i :: 0 <= i < |c| ==> Slot(h, capacity, c[i].0) == b && c[i].0 in m && m[c[i].0] == c[i].1)
    && (forall k {:trigger HasKey(c, k)} :: k in m && Slot(h, capacity, k) == b ==> HasKey(c, k))
  }

  /** So does every bucket from b on. */
  ghost predicate StoresFrom(h: Hash, buckets: seq<Chain>, m: map<Str, Str>, b: nat)
    decreases |buckets| - b
  {
    b < |buckets| ==> StoresPart(h, |buckets|, b, buckets[b], m) && StoresFrom(h, buckets, m, b + 1)
  }

  lemma {:induction false} PartAt(h: Hash, buckets: seq<Chain>, m: map<Str, Str>, from: nat, b: nat)
    requires StoresFrom(h, buckets, m, from) && from <= b < |buckets|
    ensures StoresPart(h, |buckets|, b, buckets[b], m)
    decreases b - from
  {
    if from < b { PartAt(h, buckets, m, from + 1, b); }
  }

  lemma {:induction false} AllParts(h: Hash, buckets: seq<Chain>, m: map<Str, Str>, from: nat)
    requires forall b :: from <= b < |buckets| ==> StoresPart(h, |buckets|, b, buckets[b], m)
    ensures StoresFrom(h, buckets, m, from)
    decreases |buckets| - from
  {
    if from < |buckets| { AllParts(h, buckets, m, from + 1); }
  }

  /** The buckets are a well-formed table and m is the map they store. */
  ghost predicate Represents(h: Hash, buckets: seq<Chain>, m: map<Str, Str>) {
    && |buckets| > 0
    && StoresFrom(h, buckets, m, 0)
    && Total(buckets) == |m|
  }

  /** 16 doubled some number of times. */
  ghost predicate IsCapacity(c: nat) {
    c == 16 || (c > 16 && c % 2 == 0 && IsCapacity(c / 2))
  }

  // ---------- One bucket changes ----------

  lemma {:induction false} TotalUpdate(buckets: seq<Chain>, b: nat, c: Chain)
    requires b < |buckets|
    ensures Total(buckets[b := c]) == Total(buckets) - |buckets[b]| + |c|
  {
    if b > 0 {
      TotalUpdate(buckets[1..], b - 1, c);
      assert buckets[b := c][1..] == buckets[1..][b - 1 := c];
    } else {
      assert buckets[b := c][1..] == buckets[1..];
    }
  }

  lemma {:induction false} TotalEmpty(buckets: seq<Chain>)
    requires forall b :: 0 <= b < |buckets| ==> buckets[b] == []
    ensures Total(buckets) == 0
  {
    if buckets != [] { TotalEmpty(buckets[1..]); }
  }

  lemma EmptyRepresents(h: Hash, buckets: seq<Chain>)
    requires |buckets| > 0 && forall b :: 0 <= b < |buckets| ==> buckets[b] == []
    ensures Represents(h, buckets, map[])
  {
    TotalEmpty(buckets);
    AllParts(h, buckets, map[], 0);
  }

  ghost predicate SameAt(m: map<Str, Str>, m': map<Str, Str>, k: Str) {
    (k in m <==> k in m') && (k in m ==> m[k] == m'[k])
  }

  /** Replacing bucket b by a chain that stores its part of m' turns m into m'. */
  lemma ReplaceBucket(h: Hash, buckets: seq<Chain>, m: map<Str, Str>, b: nat, c: Chain, m': map<Str, Str>)
    requires Represents(h, buckets, m) && b < |buckets|
    requires StoresPart(h, |buckets|, b, c, m')
    requires forall k :: Slot(h, |buckets|, k) != b ==> SameAt(m, m', k)
    requires |m'| == |m| - |buckets[b]| + |c|
    ensures Represents(h, buckets[b := c], m')
  {
    TotalUpdate(buckets, b, c);
    forall d | 0 <= d < |buckets| && d != b ensures StoresPart(h, |buckets|, d, buckets[d], m') {
      PartAt(h, buckets, m, 0, d);
    }
    AllParts(h, buckets[b := c], m', 0);
  }

  /** A node for a new key at the head of its bucket. */
  lemma PushNew(h: Hash, buckets: seq<Chain>, m: map<Str, Str>, key: Str, value: Str)
    requires Represents(h, buckets, m) && key !in m
    ensures var b := Slot(h, |buckets|, key);
            Represents(h, buckets[b := [(key, value)] + buckets[b]], m[key := value])
  {
    var b := Slot(h, |buckets|, key);
    PartAt(h, buckets, m, 0, b);
    PushOnChain(h, |buckets|, b, buckets[b], m, key, value);
    ReplaceBucket(h, buckets, m, b, [(key, value)] + buckets[b], m[key := value]);
  }

  lemma PushOnChain(h: Hash, capacity: nat, b: nat, c: Chain, m: map<Str, Str>, key: Str, value: Str)
    requires capacity > 0 && StoresPart(h, capacity, b, c, m) && key !in m && Slot(h, capacity, key) == b
    ensures StoresPart(h, capacity, b, [(key, value)] + c, m[key := value])
  {
    var c' := [(key, value)] + c;
    forall k | k in m[key := value] && Slot(h, capacity, k) == b ensures HasKey(c', k) {
      if k == key {
        assert c'[0].0 == k;
      } else {
        assert HasKey(c, k);
        var i :| 0 <= i < |c| && c[i].0 == k;
        assert c'[i + 1].0 == k;
      }
    }
  }

  /** A new value in the node that has the key. */
  lemma Overwrite(h: Hash, buckets: seq<Chain>, m: map<Str, Str>, key: Str, i: nat, value: Str)
    requires Represents(h, buckets, m)
    requires var b := Slot(h, |buckets|, key); i < |buckets[b]| && buckets[b][i].0 == key
    ensures var b := Slot(h, |buckets|, key);
            key in m && Represents(h, buckets[b := buckets[b][i := (key, value)]], m[key := value])
  {
    var b := Slot(h, |buckets|, key);
    PartAt(h, buckets, m, 0, b);
    OverwriteInChain(h, |buckets|, b, buckets[b], m, i, value);
    ReplaceBucket(h, buckets, m, b, buckets[b][i := (key, value)], m[key := value]);
  }

  lemma OverwriteInChain(h: Hash, capacity: nat, b: nat, c: Chain, m: map<Str, Str>, i: nat, value: Str)
    requires capacity > 0 && StoresPart(h, capacity, b, c, m) && i < |c|
    ensures StoresPart(h, capacity, b, c[i := (c[i].0, value)], m[c[i].0 := value])
  {
    var c' := c[i := (c[i].0, value)];
    forall k | k in m && Slot(h, capacity, k) == b ensures HasKey(c', k) {
      assert HasKey(c, k);
      var t :| 0 <= t < |c| && c[t].0 == k;
      assert c'[t].0 == k;
    }
  }

  lemma UnlinkFromChain(h: Hash, capacity: nat, b: nat, c: Chain, m: map<Str, Str>, i: nat)
    requires capacity > 0 && StoresPart(h, capacity, b, c, m) && i < |c|
    ensures StoresPart(h, capacity, b, c[..i] + c[i + 1..], m - {c[i].0})
  {
    var c' := c[..i] + c[i + 1..];
    forall k | k in m - {c[i].0} && Slot(h, capacity, k) == b ensures HasKey(c', k) {
      assert HasKey(c, k);
      var t :| 0 <= t < |c| && c[t].0 == k;
      assert c'[if t < i then t else t - 1].0 == k;
    }
  }

  /** The node that has the key leaves its chain. */
  lemma Unlink(h: Hash, buckets: seq<Chain>, m: map<Str, Str>, key: Str, i: nat)
    requires Represents(h, buckets, m)
    requires var b := Slot(h, |buckets|, key); i < |buckets[b]| && buckets[b][i].0 == key
    ensures var b := Slot(h, |buckets|, key);
            key in m && Represents(h, buckets[b := buckets[b][..i] + buckets[b][i + 1..]], m - {key})
  {
    var b := Slot(h, |buckets|, key);
    PartAt(h, buckets, m, 0, b);
    UnlinkFromChain(h, |buckets|, b, buckets[b], m, i);
    assert (m - {key}).Keys == m.Keys - {key};
    ReplaceBucket(h, buckets, m, b, buckets[b][..i] + buckets[b][i + 1..], m - {key});
  }

  lemma MinusStranger(m: map<Str, Str>, key: Str)
    requires key !in m
    ensures m - {key} == m
  {
  }

  lemma DropOne(m: map<Str, Str>, key: Str)
    requires key in m
    ensures |m - {key}| == |m| - 1
  {
    assert (m - {key}).Keys == m.Keys - {key};
  }

  /** A lookup in the key's own bucket decides membership. */
  lemma LookupDecides(h: Hash, buckets: seq<Chain>, m: map<Str, Str>, key: Str)
    requires Represents(h, buckets, m)
    ensures key in m <==> HasKey(buckets[Slot(h, |buckets|, key)], key)
    ensures forall i :: 0 <= i < |buckets[Slot(h, |buckets|, key)]|
                        && buckets[Slot(h, |buckets|, key)][i].0 == key ==>
                        key in m && m[key] == buckets[Slot(h, |buckets|, key)][i].1
  {
    var b := Slot(h, |buckets|, key);
    PartAt(h, buckets, m, 0, b);
  }

  /** A position in the table, and the order in which the loops visit positions. */
  predicate Before(d: nat, t: nat, b: nat, i: nat) { d < b || (d == b && t < i) }

  ghost predicate Position(buckets: seq<Chain>, d: int, t: int) {
    0 <= d < |buckets| && 0 <= t < |buckets[d]|
  }

  /** No key has two positions. */
  lemma OnePosition(h: Hash, buckets: seq<Chain>, m: map<Str, Str>, d: nat, t: nat, d': nat, t': nat)
    requires Represents(h, buckets, m)
    requires Position(buckets, d, t) && Position(buckets, d', t') && buckets[d][t].0 == buckets[d'][t'].0
    ensures d == d' && t == t'
  {
    PartAt(h, buckets, m, 0, d);
    PartAt(h, buckets, m, 0, d');
  }

  /** The keys at the positions before (b, i). */
  ghost predicate VisitedUpTo(buckets: seq<Chain>, b: nat, i: nat, seen: set<Str>) {
    forall d: nat, t: nat {:trigger Position(buckets, d, t)} ::
      Position(buckets, d, t) ==> (buckets[d][t].0 in seen <==> Before(d, t, b, i))
  }

  lemma VisitNext(h: Hash, buckets: seq<Chain>, m: map<Str, Str>, b: nat, i: nat, seen: set<Str>)
    requires Represents(h, buckets, m) && Position(buckets, b, i) && VisitedUpTo(buckets, b, i, seen)
    ensures VisitedUpTo(buckets, b, i + 1, seen + {buckets[b][i].0})
    ensures buckets[b][i].0 !in seen && buckets[b][i].0 in m && m[buckets[b][i].0] == buckets[b][i].1
  {
    PartAt(h, buckets, m, 0, b);
    var key := buckets[b][i].0;
    forall d: nat, t: nat | Position(buckets, d, t)
      ensures buckets[d][t].0 in seen + {key} <==> Before(d, t, b, i + 1)
    {
      if buckets[d][t].0 == key { OnePosition(h, buckets, m, d, t, b, i); }
    }
  }

  /** After the last bucket every key has been visited. */
  lemma VisitedAll(h: Hash, buckets: seq<Chain>, m: map<Str, Str>, seen: set<Str>)
    requires Represents(h, buckets, m) && VisitedUpTo(buckets, |buckets|, 0, seen) && seen <= m.Keys
    ensures seen == m.Keys
  {
    forall k | k in m ensures k in seen {
      var b := Slot(h, |buckets|, k);
      PartAt(h, buckets, m, 0, b);
      assert HasKey(buckets[b], k);
      var i :| 0 <= i < |buckets[b]| && buckets[b][i].0 == k;
      assert Position(buckets, b, i);
    }
  }

  ghost predicate Submap(a: map<Str, Str>, m: map<Str, Str>) {
    a.Keys <= m.Keys && forall k :: k in a ==> a[k] == m[k]
  }

  /** Halfway through a resize: the nodes before (b, i) are in the new buckets. */
  ghost predicate Moving(h: Hash, buckets: seq<Chain>, m: map<Str, Str>, b: nat, i: nat,
                         newBuckets: seq<Chain>, moved: map<Str, Str>)
  {
    && |newBuckets| == 2 * |buckets|
    && Represents(h, newBuckets, moved)
    && VisitedUpTo(buckets, b, i, moved.Keys)
    && Submap(moved, m)
  }

  lemma MoveNode(h: Hash, buckets: seq<Chain>, m: map<Str, Str>, b: nat, i: nat,
                 newBuckets: seq<Chain>, moved: map<Str, Str>)
    requires Represents(h, buckets, m) && Position(buckets, b, i)
    requires Moving(h, buckets, m, b, i, newBuckets, moved)
    ensures var (key, value) := buckets[b][i];
            var d := Slot(h, |newBuckets|, key);
            Moving(h, buckets, m, b, i + 1, newBuckets[d := [(key, value)] + newBuckets[d]], moved[key := value])
  {
    var (key, value) := buckets[b][i];
    VisitNext(h, buckets, m, b, i, moved.Keys);
    PushNew(h, newBuckets, moved, key, value);
    assert moved[key := value].Keys == moved.Keys + {key};
  }

  lemma StartMoving(h: Hash, buckets: seq<Chain>, m: map<Str, Str>, newBuckets: seq<Chain>)
    requires |buckets| > 0 && |newBuckets| == 2 * |buckets|
    requires forall b :: 0 <= b < |newBuckets| ==> newBuckets[b] == []
    ensures Moving(h, buckets, m, 0, 0, newBuckets, map[])
  {
    EmptyRepresents(h, newBuckets);
  }

  lemma DoubleCapacity(c: nat)
    requires IsCapacity(c)
    ensures IsCapacity(c * 2)
  {
  }

  lemma NextBucket(h: Hash, buckets: seq<Chain>, m: map<Str, Str>, b: nat, newBuckets: seq<Chain>, moved: map<Str, Str>)
    requires b < |buckets| && Moving(h, buckets, m, b, |buckets[b]|, newBuckets, moved)
    ensures Moving(h, buckets, m, b + 1, 0, newBuckets, moved)
  {
  }

  lemma AllMoved(h: Hash, buckets: seq<Chain>, m: map<Str, Str>, newBuckets: seq<Chain>, moved: map<Str, Str>)
    requires Represents(h, buckets, m) && Moving(h, buckets, m, |buckets|, 0, newBuckets, moved)
    ensures Represents(h, newBuckets, m)
  {
    VisitedAll(h, buckets, m, moved.Keys);
    assert moved == m;
  }
}
