/** The hash table object: bucket heads and linked nodes changed in place. */
module HashTables {
  import opened Basics
  import opened Orders
  import opened Chains
  import opened LinkedChains
  import Glob

  class HashTable {
    const murmur: Hash
    var heads: seq<Node?>
    var size: nat
    /** What the heads lead to, and the map that makes. */
    ghost var table: Table
    ghost var contents: map<Str, Str>

    /** The ghost table says what is in the heads and in the nodes. */
    ghost predicate Shown()
      reads this, table.store.Keys
    {
      heads == table.heads && Mirrors(table.store)
    }

    /** The chains hang together and store `contents`; the counter is the size of that
        map; the capacity is 16 doubled some number of times; and the load stays
        within one entry of three quarters. */
    ghost predicate Valid()
      reads this, table.store.Keys
    {
      && Shown()
      && Good(murmur, table, contents)
      && size == |contents|
      && IsCapacity(|heads|)
      && 4 * size <= 3 * |heads| + 4
    }

    /** The nodes the table may change. */
    ghost function Nodes(): set<Node>
      reads this
    {
      table.store.Keys
    }

    constructor (murmur: Hash, initialCapacity: nat)
      ensures Valid() && contents == map[] && this.murmur == murmur && Nodes() == {}
      ensures |heads| >= initialCapacity
      ensures |heads| == 16 || |heads| < 2 * initialCapacity
    {
      this.murmur := murmur;
      var capacity := 16;
      while capacity < initialCapacity
        invariant IsCapacity(capacity) && (capacity == 16 || capacity < 2 * initialCapacity)
        decreases initialCapacity - capacity
      {
        capacity := capacity * 2;
      }
      heads := seq(capacity, _ => null);
      size := 0;
      table := Table(map[], seq(capacity, _ => null), seq(capacity, _ => []), seq(capacity, _ => []));
      contents := map[];
      new;
      EmptyRepresents(murmur, table.buckets);
      AllChains(table.store, heads, table.spines, table.buckets, 0);
    }

    /** find_in_bucket: the node with the key and the one before it, at position i of the chain. */
    method FindInBucket(bucket: nat, key: Str) returns (node: Node?, prev: Node?, ghost i: nat)
      requires Shown() && Good(murmur, table, contents) && bucket < |heads|
      ensures node == null <==> !HasKey(table.buckets[bucket], key)
      ensures node != null ==>
        && HasNode(table, bucket, i) && table.buckets[bucket][i].0 == key && node == table.spines[bucket][i]
        && prev == if i == 0 then null else table.spines[bucket][i - 1]
    {
      ghost var ns, c := table.spines[bucket], table.buckets[bucket];
      ChainAt(table.store, heads, table.spines, table.buckets, 0, bucket);
      prev, node, i := null, heads[bucket], 0;
      while node != null
        invariant i <= |ns| && node == NodeAt(ns, i) && prev == if i == 0 then null else ns[i - 1]
        invariant forall t :: 0 <= t < i ==> c[t].0 != key
        decreases |ns| - i
      {
        NodeThere(murmur, table, contents, bucket, i);
        assert LinkAt(table.store, ns, c, i);
        if node.key == key { return; }
        prev, node, i := node, node.next, i + 1;
      }
      prev := null;
    }

    /** The search in the key's own bucket, as every operation makes it. */
    method Find(key: Str) returns (bucket: nat, node: Node?, prev: Node?, ghost i: nat)
      requires Shown() && Good(murmur, table, contents)
      ensures HasBucket(table, bucket) && bucket == Slot(murmur, |table.buckets|, key)
      ensures node == null <==> key !in contents
      ensures node != null ==>
        && HasNode(table, bucket, i) && table.buckets[bucket][i] == (key, contents[key])
        && node == table.spines[bucket][i] && prev == if i == 0 then null else table.spines[bucket][i - 1]
    {
      LookupDecides(murmur, table.buckets, contents, key);
      bucket := Slot(murmur, |heads|, key);
      node, prev, i := FindInBucket(bucket, key);
    }

    method Set(key: Str, value: Str) returns (isNew: bool)
      requires Valid()
      modifies this, Nodes()
      ensures Valid() && fresh(Nodes() - old(Nodes()))
      ensures contents == old(contents)[key := value]
      ensures isNew <==> key !in old(contents)
      ensures |heads| == if 4 * old(size) > 3 * old(|heads|) then 2 * old(|heads|) else old(|heads|)
    {
      if 4 * size > 3 * |heads| {
        Resize();
      }
      isNew := Put(key, value);
    }

    /** What set does once there is room. */
    method Put(key: Str, value: Str) returns (isNew: bool)
      requires Shown() && Good(murmur, table, contents) && size == |contents|
      modifies this, Nodes()`value
      ensures Shown() && Good(murmur, table, contents) && size == |contents|
      ensures |heads| == old(|heads|) && fresh(Nodes() - old(Nodes()))
      ensures contents == old(contents)[key := value]
      ensures isNew <==> key !in old(contents)
    {
      ghost var t := table;
      var bucket, node, prev, i := Find(key);
      isNew := node == null;
      if node != null {
        WrittenGood(murmur, t, contents, bucket, i, value);
        WriteValue(bucket, node, i, value);
      } else {
        node := PushNode(bucket, key, value);
        PushedGood(murmur, t, contents, key, value, node);
        size := size + 1;
      }
      contents := contents[key := value];
    }

    method WriteValue(bucket: nat, node: Node, ghost i: nat, value: Str)
      requires Shown() && HasNode(table, bucket, i) && node == table.spines[bucket][i]
      modifies this`table, Nodes()`value
      ensures Shown() && table == Written(old(table), bucket, i, value)
    {
      node.value := value;
      table := Written(table, bucket, i, value);
    }

    method PushNode(bucket: nat, key: Str, value: Str) returns (node: Node)
      requires Shown() && HasBucket(table, bucket)
      modifies this`heads, this`table
      ensures fresh(node) && Shown() && table == Pushed(old(table), bucket, key, value, node)
    {
      node := new Node(key, value);
      node.next := heads[bucket];
      heads := heads[bucket := node];
      table := Pushed(table, bucket, key, value, node);
    }

    method Get(key: Str) returns (r: Option<Str>)
      requires Valid()
      ensures r == if key in contents then Some(contents[key]) else None
    {
      var bucket, node, prev, i := Find(key);
      r := if node != null then Some(node.value) else None;
    }

    method Exists(key: Str) returns (r: bool)
      requires Valid()
      ensures r <==> key in contents
    {
      var bucket, node, prev, i := Find(key);
      r := node != null;
    }

    method Del(key: Str) returns (deleted: bool)
      requires Valid()
      modifies this, Nodes()
      ensures Valid() && Nodes() == old(Nodes())
      ensures contents == old(contents) - {key}
      ensures deleted <==> key in old(contents)
    {
      var bucket, node, prev, i := Find(key);
      if node == null {
        MinusStranger(contents, key);
        return false;
      }
      Remove(key, bucket, node, prev, i);
      deleted := true;
    }

    method Remove(key: Str, bucket: nat, node: Node, prev: Node?, ghost i: nat)
      requires Shown() && Good(murmur, table, contents)
      requires HasNode(table, bucket, i) && bucket == Slot(murmur, |table.buckets|, key)
      requires table.buckets[bucket][i].0 == key && node == table.spines[bucket][i]
      requires prev == if i == 0 then null else table.spines[bucket][i - 1]
      requires size == |contents|
      modifies this, Nodes()`next
      ensures Shown() && Good(murmur, table, contents) && |heads| == |old(heads)| && Nodes() == old(Nodes())
      ensures contents == old(contents) - {key} && key in old(contents) && size == |contents| == old(size) - 1
    {
      TakenOutGood(murmur, table, contents, bucket, i);
      TakeOut(bucket, node, prev, i);
      DropOne(contents, key);
      contents := contents - {key};
      size := size - 1;
    }

    /** The node leaves its chain: its successor takes its place behind prev, or at the head. */
    method TakeOut(bucket: nat, node: Node, prev: Node?, ghost i: nat)
      requires Shown() && HasNode(table, bucket, i) && node == table.spines[bucket][i]
      requires prev == if i == 0 then null else table.spines[bucket][i - 1]
      modifies this`heads, this`table, Nodes()`next
      ensures Shown() && table == TakenOut(old(table), bucket, i) && Nodes() == old(Nodes())
    {
      ghost var t := TakenOut(table, bucket, i);
      if prev != null {
        prev.next := node.next;
      } else {
        heads := heads[bucket := node.next];
      }
      table := t;
    }

    method Clear()
      requires Valid()
      modifies this
      ensures Valid() && contents == map[] && |heads| == old(|heads|) && Nodes() == old(Nodes())
    {
      for b := 0 to |heads|
        invariant |heads| == old(|heads|) && table == old(table)
        invariant forall d :: 0 <= d < b ==> heads[d] == null
      {
        heads := heads[b := null];
      }
      table := Table(table.store, heads, seq(|heads|, _ => []), seq(|heads|, _ => []));
      EmptyRepresents(murmur, table.buckets);
      AllChains(table.store, heads, table.spines, table.buckets, 0);
      size, contents := 0, map[];
    }

    /** Doubling: node by node, every entry goes to the head of its new bucket. No
        node is copied, lost or left in two chains. */
    method Resize()
      requires Shown() && Good(murmur, table, contents) && IsCapacity(|heads|)
      modifies this`heads, this`table, Nodes()`next
      ensures Shown() && Good(murmur, table, contents) && Nodes() == old(Nodes())
      ensures |heads| == 2 * old(|heads|) && IsCapacity(|heads|)
      ensures InUse(table.spines) == old(InUse(table.spines))
    {
      DoubleCapacity(|heads|);
      AlwaysMovable(murmur, contents, table);
      var k := MoveAll(|heads| * 2);
      Shifted(murmur, contents, old(table), k);
    }

    /** The outer loop, as k steps of the shift. */
    method MoveAll(newCapacity: nat) returns (ghost k: nat)
      requires Shown() && AllMovable(murmur, table, Start(table, newCapacity))
      modifies this`heads, this`table, Nodes()`next
      ensures var s := Steps(murmur, Start(old(table), newCapacity), k);
              s.b >= |old(heads)| && Shown() && table == s.into && Nodes() == old(Nodes())
    {
      ghost var t := table;
      var newHeads: seq<Node?> := seq(newCapacity, _ => null);
      ghost var start := Start(t, newCapacity);
      ghost var s := start;
      k := 0;
      assert Movable(t, Steps(murmur, start, k));
      for b := 0 to |heads|
        invariant |heads| == |t.spines| && s.heads == heads && s.b == b && s.curr == HeadAt(heads, b)
        invariant s == Steps(murmur, start, k) && s.into.heads == newHeads
        invariant Mirrors(s.into.store)
      {
        newHeads, s, k := MoveChain(t, start, heads[b], newHeads, s, k);
        ReleaseStep(murmur, s);
        s, k := Step(murmur, s), k + 1;
        heads := heads[b := null];
      }
      assert Movable(t, Steps(murmur, start, k));
      heads := newHeads;
      table := s.into;
    }

    /** The inner loop. */
    method MoveChain(ghost t: Table, ghost start: Shift, first: Node?, heads0: seq<Node?>, ghost s0: Shift, ghost k0: nat)
      returns (newHeads: seq<Node?>, ghost s: Shift, ghost k: nat)
      requires AllMovable(murmur, t, start)
      requires s0 == Steps(murmur, start, k0) && s0.curr == first && s0.into.heads == heads0
      requires Mirrors(s0.into.store)
      modifies t.store.Keys`next
      ensures s == Steps(murmur, start, k) && s.curr == null && s.into.heads == newHeads
      ensures s.b == s0.b && s.heads == s0.heads
      ensures Mirrors(s.into.store)
    {
      newHeads, s, k := heads0, s0, k0;
      var curr := first;
      while curr != null
        invariant s == Steps(murmur, start, k) && s.curr == curr && s.into.heads == newHeads
        invariant s.b == s0.b && s.heads == s0.heads
        invariant Mirrors(s.into.store)
        decreases Left(t, s)
      {
        assert Movable(t, Steps(murmur, start, k));
        ghost var before := s;
        curr, newHeads, s := MoveNode(curr, newHeads, s);
        LeftDrops(t, before, s);
        k := k + 1;
      }
    }

    /** The body of the inner loop: the old link is saved, then the node goes to the head of its new bucket. */
    method MoveNode(curr: Node, heads0: seq<Node?>, ghost s0: Shift)
      returns (next: Node?, newHeads: seq<Node?>, ghost s: Shift)
      requires s0.curr == curr && curr in s0.into.store && HasBucket(s0.into, 0)
      requires s0.into.heads == heads0 && Mirrors(s0.into.store)
      modifies curr`next
      ensures s == Step(murmur, s0) && next == s.curr && newHeads == s.into.heads && Mirrors(s.into.store)
      ensures s.into.store.Keys == s0.into.store.Keys && s.b == s0.b && s.i == s0.i + 1 && s.heads == s0.heads
    {
      s := Step(murmur, s0);
      var newBucket := Slot(murmur, |heads0|, curr.key);
      next := curr.next;
      curr.next := heads0[newBucket];
      newHeads := heads0[newBucket := curr];
    }

    /** Every stored key the matcher accepts, each once. */
    method Keys(pattern: Str) returns (result: seq<Str>)
      requires Valid()
      ensures forall i, j :: 0 <= i < j < |result| ==> result[i] != result[j]
      ensures forall k :: k in result <==> k in contents && Glob.Accepted(k, pattern)
    {
      result := [];
      ghost var seen: set<Str> := {};
      ghost var buckets := table.buckets;
      for b := 0 to |heads|
        invariant VisitedUpTo(buckets, b, 0, seen) && seen <= contents.Keys
        invariant forall i, j :: 0 <= i < j < |result| ==> result[i] != result[j]
        invariant forall k :: k in result <==> k in seen && Glob.Accepted(k, pattern)
      {
        var curr := heads[b];
        ghost var i, ns := 0, table.spines[b];
        ChainAt(table.store, heads, table.spines, buckets, 0, b);
        while curr != null
          invariant i <= |ns| && curr == NodeAt(ns, i)
          invariant VisitedUpTo(buckets, b, i, seen) && seen <= contents.Keys
          invariant forall i, j :: 0 <= i < j < |result| ==> result[i] != result[j]
          invariant forall k :: k in result <==> k in seen && Glob.Accepted(k, pattern)
          decreases |ns| - i
        {
          assert LinkAt(table.store, ns, buckets[b], i);
          VisitNext(murmur, buckets, contents, b, i, seen);
          var matched := Glob.MatchesPattern(curr.key, pattern);
          if matched { result := result + [curr.key]; }
          seen := seen + {curr.key};
          curr, i := curr.next, i + 1;
        }
      }
      VisitedAll(murmur, buckets, contents, seen);
    }
  }
}
