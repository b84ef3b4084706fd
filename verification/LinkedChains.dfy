/** Chains as linked nodes: which node holds what and points where, and what the
    assignments to a node do to the chains of a table. */
module LinkedChains {
  import opened Orders
  import opened Chains

  class Node {
    const key: Str
    var value: Str
    var next: Node?

    constructor (key: Str, value: Str)
      ensures this.key == key && this.value == value && next == null
    {
      this.key, this.value, next := key, value, null;
    }
  }

  /** What a node holds; a store says it of every node of a table. */
  datatype Cell = Cell(key: Str, value: Str, next: Node?)

  type Store = map<Node, Cell>

  /** The store says what is in the nodes. */
  ghost predicate Mirrors(store: Store)
    reads store.Keys
  {
    forall n :: n in store ==> store[n] == Cell(n.key, n.value, n.next)
  }

  ghost function NodeAt(ns: seq<Node>, i: nat): Node? { if i < |ns| then ns[i] else null }

  /** Node i of the chain holds pair i and is linked to the node after it. */
  ghost predicate LinkAt(store: Store, ns: seq<Node>, c: Chain, i: nat) {
    i < |ns| && i < |c| && ns[i] in store && store[ns[i]] == Cell(c[i].0, c[i].1, NodeAt(ns, i + 1))
  }

  /** From position `from` on, the nodes ns are linked in order, starting at curr, and hold the pairs of c. */
  ghost predicate Chained(store: Store, curr: Node?, ns: seq<Node>, c: Chain, from: nat) {
    && |ns| == |c| && from <= |ns| && curr == NodeAt(ns, from)
    && forall i :: from <= i < |ns| ==> LinkAt(store, ns, c, i)
  }

  /** Every bucket head from bucket `from` on leads through its spine. */
  ghost predicate Linked(store: Store, heads: seq<Node?>, spines: seq<seq<Node>>, buckets: seq<Chain>, from: nat)
    decreases |heads| - from
  {
    && |heads| == |spines| == |buckets|
    && (from < |heads| ==>
          Chained(store, heads[from], spines[from], buckets[from], 0) && Linked(store, heads, spines, buckets, from + 1))
  }

  lemma {:induction false} ChainAt(store: Store, heads: seq<Node?>, spines: seq<seq<Node>>, buckets: seq<Chain>,
                                   from: nat, b: nat)
    requires Linked(store, heads, spines, buckets, from) && from <= b < |heads|
    ensures Chained(store, heads[b], spines[b], buckets[b], 0)
    decreases b - from
  {
    if from < b { ChainAt(store, heads, spines, buckets, from + 1, b); }
  }

  lemma {:induction false} AllChains(store: Store, heads: seq<Node?>, spines: seq<seq<Node>>, buckets: seq<Chain>, from: nat)
    requires |heads| == |spines| == |buckets|
    requires forall b :: from <= b < |heads| ==> Chained(store, heads[b], spines[b], buckets[b], 0)
    ensures Linked(store, heads, spines, buckets, from)
    decreases |heads| - from
  {
    if from < |heads| { AllChains(store, heads, spines, buckets, from + 1); }
  }

  lemma LinkedAt(store: Store, heads: seq<Node?>, spines: seq<seq<Node>>, buckets: seq<Chain>, from: nat, b: nat, i: nat)
    requires Linked(store, heads, spines, buckets, from) && from <= b && Position(buckets, b, i)
    ensures |spines[b]| == |buckets[b]| && LinkAt(store, spines[b], buckets[b], i)
  {
    ChainAt(store, heads, spines, buckets, from, b);
  }

  /** No node is linked into two places: its key would have two positions. */
  lemma {:induction false} NoSharing(h: Hash, m: map<Str, Str>, store: Store, heads: seq<Node?>, spines: seq<seq<Node>>,
                                     buckets: seq<Chain>, b: nat, i: nat, d: nat, t: nat)
    requires Represents(h, buckets, m) && Linked(store, heads, spines, buckets, 0)
    requires Position(buckets, b, i) && Position(buckets, d, t)
    requires |spines[b]| == |buckets[b]| && |spines[d]| == |buckets[d]| && spines[b][i] == spines[d][t]
    ensures b == d && i == t
  {
    LinkedAt(store, heads, spines, buckets, 0, b, i);
    LinkedAt(store, heads, spines, buckets, 0, d, t);
    OnePosition(h, buckets, m, b, i, d, t);
  }

  /** Chains that avoid the node that changed. */
  lemma {:induction false} ChainKept(store: Store, curr: Node?, ns: seq<Node>, c: Chain, from: nat, n: Node, cell: Cell)
    requires Chained(store, curr, ns, c, from) && forall i :: from <= i < |ns| ==> ns[i] != n
    ensures Chained(store[n := cell], curr, ns, c, from)
  {
    var store' := store[n := cell];
    forall i | from <= i < |ns| ensures LinkAt(store', ns, c, i) {
      assert LinkAt(store, ns, c, i);
    }
  }

  /** The positions of a table from bucket `from` on, bucket b left out. */
  ghost predicate Avoids(spines: seq<seq<Node>>, from: nat, b: int, n: Node) {
    forall d: nat, t: nat :: from <= d < |spines| && d != b && t < |spines[d]| ==> spines[d][t] != n
  }

  lemma {:induction false} OthersKept(store: Store, heads: seq<Node?>, spines: seq<seq<Node>>, buckets: seq<Chain>,
                                      from: nat, b: int, n: Node, cell: Cell)
    requires Linked(store, heads, spines, buckets, from) && Avoids(spines, from, b, n)
    ensures forall d :: from <= d < |heads| && d != b ==> Chained(store[n := cell], heads[d], spines[d], buckets[d], 0)
  {
    forall d | from <= d < |heads| && d != b ensures Chained(store[n := cell], heads[d], spines[d], buckets[d], 0) {
      ChainAt(store, heads, spines, buckets, from, d);
      ChainKept(store, heads[d], spines[d], buckets[d], 0, n, cell);
    }
  }

  /** Replacing one chain where a node changed. */
  lemma {:induction false} ReplaceChain(store: Store, heads: seq<Node?>, spines: seq<seq<Node>>, buckets: seq<Chain>,
                                        b: nat, n: Node, cell: Cell, head: Node?, ns: seq<Node>, c: Chain)
    requires Linked(store, heads, spines, buckets, 0) && b < |heads| && Avoids(spines, 0, b, n)
    requires Chained(store[n := cell], head, ns, c, 0)
    ensures Linked(store[n := cell], heads[b := head], spines[b := ns], buckets[b := c], 0)
  {
    OthersKept(store, heads, spines, buckets, 0, b, n, cell);
    AllChains(store[n := cell], heads[b := head], spines[b := ns], buckets[b := c], 0);
  }

  /** A node put in front of a chain. */
  lemma {:induction false} ChainPush(store: Store, n: Node, head: Node?, ns: seq<Node>, c: Chain, key: Str, value: Str)
    requires Chained(store, head, ns, c, 0) && n !in ns
    ensures Chained(store[n := Cell(key, value, head)], n, [n] + ns, [(key, value)] + c, 0)
  {
    var store', ns', c' := store[n := Cell(key, value, head)], [n] + ns, [(key, value)] + c;
    forall i | 0 <= i < |ns'| ensures LinkAt(store', ns', c', i) {
      if i > 0 {
        assert LinkAt(store, ns, c, i - 1);
        assert ns'[i] == ns[i - 1] && ns[i - 1] in ns;
      }
    }
  }

  /** A new value in one node. */
  lemma {:induction false} ChainOverwrite(store: Store, head: Node?, ns: seq<Node>, c: Chain, i: nat, value: Str)
    requires Chained(store, head, ns, c, 0) && i < |ns| && forall t :: 0 <= t < |ns| && t != i ==> ns[t] != ns[i]
    ensures ns[i] in store
    ensures Chained(store[ns[i] := store[ns[i]].(value := value)], head, ns, c[i := (c[i].0, value)], 0)
  {
    assert LinkAt(store, ns, c, i);
    var store', c' := store[ns[i] := store[ns[i]].(value := value)], c[i := (c[i].0, value)];
    forall t | 0 <= t < |ns| ensures LinkAt(store', ns, c', t) {
      assert LinkAt(store, ns, c, t);
    }
  }

  /** A node taken out behind its predecessor. */
  lemma {:induction false} ChainUnlink(store: Store, head: Node?, ns: seq<Node>, c: Chain, i: nat)
    requires Chained(store, head, ns, c, 0) && 0 < i < |ns|
    requires forall t :: 0 <= t < |ns| && t != i - 1 ==> ns[t] != ns[i - 1]
    ensures ns[i - 1] in store && ns[i] in store
    ensures Chained(store[ns[i - 1] := store[ns[i - 1]].(next := store[ns[i]].next)],
                    head, ns[..i] + ns[i + 1..], c[..i] + c[i + 1..], 0)
  {
    assert LinkAt(store, ns, c, i - 1) && LinkAt(store, ns, c, i);
    var store' := store[ns[i - 1] := store[ns[i - 1]].(next := store[ns[i]].next)];
    var ns', c' := ns[..i] + ns[i + 1..], c[..i] + c[i + 1..];
    forall t | 0 <= t < |ns'| ensures LinkAt(store', ns', c', t) {
      assert LinkAt(store, ns, c, if t < i then t else t + 1);
    }
  }

  /** The first node taken out. */
  lemma {:induction false} ChainBehead(store: Store, head: Node?, ns: seq<Node>, c: Chain)
    requires Chained(store, head, ns, c, 0) && ns != []
    ensures ns[0] in store && Chained(store, store[ns[0]].next, ns[1..], c[1..], 0)
  {
    assert LinkAt(store, ns, c, 0);
    forall t | 0 <= t < |ns[1..]| ensures LinkAt(store, ns[1..], c[1..], t) {
      assert LinkAt(store, ns, c, t + 1);
    }
  }

  /** The node at a position is at no other. */
  lemma {:induction false} OnlyPlace(h: Hash, m: map<Str, Str>, store: Store, heads: seq<Node?>, spines: seq<seq<Node>>,
                                     buckets: seq<Chain>, b: nat, i: nat)
    requires Represents(h, buckets, m) && Linked(store, heads, spines, buckets, 0)
    requires Position(buckets, b, i)
    ensures Chained(store, heads[b], spines[b], buckets[b], 0)
    ensures Avoids(spines, 0, b, spines[b][i]) && forall t :: 0 <= t < |spines[b]| && t != i ==> spines[b][t] != spines[b][i]
  {
    ChainAt(store, heads, spines, buckets, 0, b);
    forall d: nat, t: nat | d < |spines| && t < |spines[d]| && spines[d][t] == spines[b][i] ensures d == b && t == i {
      ChainAt(store, heads, spines, buckets, 0, d);
      NoSharing(h, m, store, heads, spines, buckets, b, i, d, t);
    }
  }

  /** A node outside the store is nowhere in the table. */
  lemma {:induction false} Stranger(store: Store, heads: seq<Node?>, spines: seq<seq<Node>>, buckets: seq<Chain>, n: Node)
    requires Linked(store, heads, spines, buckets, 0) && n !in store
    ensures Avoids(spines, 0, -1, n) && forall b :: 0 <= b < |spines| ==> n !in spines[b]
  {
    forall d: nat, t: nat | d < |spines| && t < |spines[d]| ensures spines[d][t] != n {
      ChainAt(store, heads, spines, buckets, 0, d);
      assert LinkAt(store, spines[d], buckets[d], t);
    }
  }

  // ---------- The table and its three changes ----------

  /** Bucket heads and what they lead to: what the nodes hold, the nodes of every chain, and their pairs. */
  datatype Table = Table(store: Store, heads: seq<Node?>, spines: seq<seq<Node>>, buckets: seq<Chain>)

  /** The chains hang together and store the map m. */
  ghost predicate Good(h: Hash, t: Table, m: map<Str, Str>) {
    Represents(h, t.buckets, m) && Linked(t.store, t.heads, t.spines, t.buckets, 0)
  }

  /** A bucket of the table, and a node of that bucket. */
  ghost predicate HasBucket(t: Table, b: nat) { b < |t.buckets| && |t.heads| == |t.spines| == |t.buckets| }

  ghost predicate HasNode(t: Table, b: nat, i: nat) {
    && HasBucket(t, b) && |t.spines[b]| == |t.buckets[b]| && i < |t.buckets[b]|
    && t.spines[b][i] in t.store && (i > 0 ==> t.spines[b][i - 1] in t.store)
    && t.store[t.spines[b][i]].key == t.buckets[b][i].0 && t.store[t.spines[b][i]].value == t.buckets[b][i].1
  }

  /** A new value in the node at (b, i). */
  ghost function Written(t: Table, b: nat, i: nat, value: Str): Table
    requires HasNode(t, b, i)
  {
    var n, c := t.spines[b][i], t.buckets[b];
    t.(store := t.store[n := t.store[n].(value := value)], buckets := t.buckets[b := c[i := (c[i].0, value)]])
  }

  /** A new node n at the head of bucket b. */
  ghost function Pushed(t: Table, b: nat, key: Str, value: Str, n: Node): Table
    requires HasBucket(t, b)
  {
    Table(t.store[n := Cell(key, value, t.heads[b])], t.heads[b := n], t.spines[b := [n] + t.spines[b]],
          t.buckets[b := [(key, value)] + t.buckets[b]])
  }

  /** The node at (b, i) bypassed by the one before it, or by the head. */
  ghost function TakenOut(t: Table, b: nat, i: nat): Table
    requires HasNode(t, b, i)
  {
    var ns, c := t.spines[b], t.buckets[b];
    var next := t.store[ns[i]].next;
    Table(if i == 0 then t.store else t.store[ns[i - 1] := t.store[ns[i - 1]].(next := next)],
          if i == 0 then t.heads[b := next] else t.heads,
          t.spines[b := ns[..i] + ns[i + 1..]], t.buckets[b := c[..i] + c[i + 1..]])
  }

  lemma {:induction false} NodeThere(h: Hash, t: Table, m: map<Str, Str>, b: nat, i: nat)
    requires Good(h, t, m) && Position(t.buckets, b, i)
    ensures HasNode(t, b, i)
  {
    LinkedAt(t.store, t.heads, t.spines, t.buckets, 0, b, i);
    if i > 0 { LinkedAt(t.store, t.heads, t.spines, t.buckets, 0, b, i - 1); }
  }

  lemma {:induction false} WrittenGood(h: Hash, t: Table, m: map<Str, Str>, b: nat, i: nat, value: Str)
    requires Good(h, t, m) && HasNode(t, b, i) && Slot(h, |t.buckets|, t.buckets[b][i].0) == b
    ensures var key := t.buckets[b][i].0; key in m && Good(h, Written(t, b, i, value), m[key := value])
  {
    var ns, c := t.spines[b], t.buckets[b];
    OnlyPlace(h, m, t.store, t.heads, t.spines, t.buckets, b, i);
    ChainOverwrite(t.store, t.heads[b], ns, c, i, value);
    Overwrite(h, t.buckets, m, c[i].0, i, value);
    ReplaceChain(t.store, t.heads, t.spines, t.buckets, b, ns[i], t.store[ns[i]].(value := value), t.heads[b], ns,
                 c[i := (c[i].0, value)]);
    assert t.heads[b := t.heads[b]] == t.heads && t.spines[b := ns] == t.spines;
  }

  lemma {:induction false} PushedGood(h: Hash, t: Table, m: map<Str, Str>, key: Str, value: Str, n: Node)
    requires Good(h, t, m) && key !in m && n !in t.store
    ensures var b := Slot(h, |t.buckets|, key);
            HasBucket(t, b) && Good(h, Pushed(t, b, key, value, n), m[key := value])
  {
    var b := Slot(h, |t.buckets|, key);
    Stranger(t.store, t.heads, t.spines, t.buckets, n);
    ChainAt(t.store, t.heads, t.spines, t.buckets, 0, b);
    ChainPush(t.store, n, t.heads[b], t.spines[b], t.buckets[b], key, value);
    PushNew(h, t.buckets, m, key, value);
    ReplaceChain(t.store, t.heads, t.spines, t.buckets, b, n, Cell(key, value, t.heads[b]), n,
                 [n] + t.spines[b], [(key, value)] + t.buckets[b]);
  }

  lemma {:induction false} TakenOutGood(h: Hash, t: Table, m: map<Str, Str>, b: nat, i: nat)
    requires Good(h, t, m) && HasNode(t, b, i) && Slot(h, |t.buckets|, t.buckets[b][i].0) == b
    ensures var key := t.buckets[b][i].0; key in m && Good(h, TakenOut(t, b, i), m - {key})
  {
    Unlink(h, t.buckets, m, t.buckets[b][i].0, i);
    if i > 0 { TakenOutBehind(h, t, m, b, i); } else { TakenOutFirst(t, b); }
  }

  lemma {:induction false} TakenOutBehind(h: Hash, t: Table, m: map<Str, Str>, b: nat, i: nat)
    requires Good(h, t, m) && HasNode(t, b, i) && i > 0
    ensures var t' := TakenOut(t, b, i); Linked(t'.store, t'.heads, t'.spines, t'.buckets, 0)
  {
    var ns, c := t.spines[b], t.buckets[b];
    OnlyPlace(h, m, t.store, t.heads, t.spines, t.buckets, b, i - 1);
    ChainUnlink(t.store, t.heads[b], ns, c, i);
    ReplaceChain(t.store, t.heads, t.spines, t.buckets, b, ns[i - 1], t.store[ns[i - 1]].(next := t.store[ns[i]].next),
                 t.heads[b], ns[..i] + ns[i + 1..], c[..i] + c[i + 1..]);
    assert t.heads[b := t.heads[b]] == t.heads;
  }

  lemma {:induction false} TakenOutFirst(t: Table, b: nat)
    requires Linked(t.store, t.heads, t.spines, t.buckets, 0) && HasNode(t, b, 0)
    ensures var t' := TakenOut(t, b, 0); Linked(t'.store, t'.heads, t'.spines, t'.buckets, 0)
  {
    var ns, c, t' := t.spines[b], t.buckets[b], TakenOut(t, b, 0);
    ChainAt(t.store, t.heads, t.spines, t.buckets, 0, b);
    ChainBehead(t.store, t.heads[b], ns, c);
    assert ns[..0] + ns[1..] == ns[1..] && c[..0] + c[1..] == c[1..];
    forall d | 0 <= d < |t'.heads| ensures Chained(t'.store, t'.heads[d], t'.spines[d], t'.buckets[d], 0) {
      ChainAt(t.store, t.heads, t.spines, t.buckets, 0, d);
    }
    AllChains(t'.store, t'.heads, t'.spines, t'.buckets, 0);
  }

  // ---------- Moving linked nodes ----------

  /** The nodes of a chain, and those of all chains. */
  ghost function NodesOf(ns: seq<Node>): set<Node> { set n | n in ns }

  ghost function InUse(spines: seq<seq<Node>>): set<Node> {
    if spines == [] then {} else var n := |spines| - 1; InUse(spines[..n]) + NodesOf(spines[n])
  }

  lemma {:induction false} InUsePush(spines: seq<seq<Node>>, b: nat, n: Node)
    requires b < |spines|
    ensures InUse(spines[b := [n] + spines[b]]) == InUse(spines) + {n}
  {
    var last := |spines| - 1;
    var spines' := spines[b := [n] + spines[b]];
    if b < last {
      InUsePush(spines[..last], b, n);
      assert spines'[..last] == spines[..last][b := [n] + spines[b]];
    } else {
      assert spines'[..last] == spines[..last];
    }
  }

  lemma {:induction false} InUseNext(spines: seq<seq<Node>>, b: nat)
    requires b < |spines|
    ensures InUse(spines[..b + 1]) == InUse(spines[..b]) + NodesOf(spines[b])
  {
    assert spines[..b + 1][..b] == spines[..b];
  }

  lemma {:induction false} InUseEmpty(spines: seq<seq<Node>>)
    requires forall b :: 0 <= b < |spines| ==> spines[b] == []
    ensures InUse(spines) == {}
  {
    if spines != [] { InUseEmpty(spines[..|spines| - 1]); }
  }

  /** Halfway through a resize, in the store: the new chains are linked, the rest of the
      chain being moved hangs on curr, and the chains behind it are untouched. */
  ghost predicate Relinking(h: Hash, m: map<Str, Str>, store: Store,
                            heads: seq<Node?>, spines: seq<seq<Node>>, buckets: seq<Chain>, b: nat, i: nat, curr: Node?,
                            newHeads: seq<Node?>, newSpines: seq<seq<Node>>, newBuckets: seq<Chain>, moved: map<Str, Str>)
  {
    && Moving(h, buckets, m, b, i, newBuckets, moved)
    && Linked(store, newHeads, newSpines, newBuckets, 0)
    && b < |buckets| && Linked(store, heads, spines, buckets, b + 1)
    && Chained(store, curr, spines[b], buckets[b], i)
  }

  /** The node about to move is in none of the new chains and at no later place of the old ones. */
  lemma {:induction false} NotYetMoved(h: Hash, m: map<Str, Str>, store: Store,
                                       heads: seq<Node?>, spines: seq<seq<Node>>, buckets: seq<Chain>, b: nat, i: nat,
                                       curr: Node?, newHeads: seq<Node?>, newSpines: seq<seq<Node>>,
                                       newBuckets: seq<Chain>, moved: map<Str, Str>)
    requires Represents(h, buckets, m)
    requires Relinking(h, m, store, heads, spines, buckets, b, i, curr, newHeads, newSpines, newBuckets, moved)
    requires i < |spines[b]|
    ensures LinkAt(store, spines[b], buckets[b], i) && curr == spines[b][i]
    ensures Avoids(newSpines, 0, -1, spines[b][i]) && Avoids(spines, b + 1, -1, spines[b][i])
    ensures forall t :: i + 1 <= t < |spines[b]| ==> spines[b][t] != spines[b][i]
  {
    var n := spines[b][i];
    VisitNext(h, buckets, m, b, i, moved.Keys);
    assert LinkAt(store, spines[b], buckets[b], i);
    forall d: nat, t: nat | d < |newSpines| && t < |newSpines[d]| ensures newSpines[d][t] != n {
      ChainAt(store, newHeads, newSpines, newBuckets, 0, d);
      assert LinkAt(store, newSpines[d], newBuckets[d], t);
      PartAt(h, newBuckets, moved, 0, d);
    }
    forall d: nat, t: nat | b + 1 <= d < |spines| && t < |spines[d]| ensures spines[d][t] != n {
      ChainAt(store, heads, spines, buckets, b + 1, d);
      assert LinkAt(store, spines[d], buckets[d], t);
      if spines[d][t] == n { OnePosition(h, buckets, m, b, i, d, t); }
    }
    forall t | i + 1 <= t < |spines[b]| ensures spines[b][t] != n {
      assert LinkAt(store, spines[b], buckets[b], t);
      if spines[b][t] == n { OnePosition(h, buckets, m, b, i, b, t); }
    }
  }

  /** One node goes over: its old link is read before it is overwritten, and nothing else is disturbed. */
  lemma {:induction false} RelinkNode(h: Hash, m: map<Str, Str>, store: Store,
                                      heads: seq<Node?>, spines: seq<seq<Node>>, buckets: seq<Chain>, b: nat, i: nat,
                                      n: Node, newHeads: seq<Node?>, newSpines: seq<seq<Node>>,
                                      newBuckets: seq<Chain>, moved: map<Str, Str>)
    requires Represents(h, buckets, m)
    requires Relinking(h, m, store, heads, spines, buckets, b, i, n, newHeads, newSpines, newBuckets, moved)
    ensures i < |buckets[b]| && n in store
    ensures var (key, value) := buckets[b][i];
            var d := Slot(h, |newBuckets|, key);
            && store[n].key == key && store[n].value == value
            && Relinking(h, m, store[n := store[n].(next := newHeads[d])], heads, spines, buckets, b, i + 1, store[n].next,
                         newHeads[d := n], newSpines[d := [n] + newSpines[d]],
                         newBuckets[d := [(key, value)] + newBuckets[d]], moved[key := value])
  {
    var (key, value) := buckets[b][i];
    var d := Slot(h, |newBuckets|, key);
    var cell := Cell(key, value, newHeads[d]);
    NotYetMoved(h, m, store, heads, spines, buckets, b, i, n, newHeads, newSpines, newBuckets, moved);
    MoveNode(h, buckets, m, b, i, newBuckets, moved);
    ChainAt(store, newHeads, newSpines, newBuckets, 0, d);
    ChainPush(store, n, newHeads[d], newSpines[d], newBuckets[d], key, value);
    ReplaceChain(store, newHeads, newSpines, newBuckets, d, n, cell, n, [n] + newSpines[d],
                 [(key, value)] + newBuckets[d]);
    OthersKept(store, heads, spines, buckets, b + 1, -1, n, cell);
    AllChains(store[n := cell], heads, spines, buckets, b + 1);
    ChainKept(store, store[n].next, spines[b], buckets[b], i + 1, n, cell);
  }

  /** A resize under way: the old heads, the place (b, i) that has been reached and the
      node there, the new table, and the map of what has moved. */
  datatype Shift = Shift(heads: seq<Node?>, b: nat, i: nat, curr: Node?, into: Table, moved: map<Str, Str>)

  ghost function HeadAt(heads: seq<Node?>, b: nat): Node? { if b < |heads| then heads[b] else null }

  ghost function Start(t: Table, capacity: nat): Shift {
    Shift(t.heads, 0, 0, HeadAt(t.heads, 0),
          Table(t.store, seq(capacity, _ => null), seq(capacity, _ => []), seq(capacity, _ => [])), map[])
  }

  /** One step: the current node goes to the head of its new bucket, with its old link
      saved; at the end of a chain its bucket is released and the next one begun. */
  ghost function Step(h: Hash, s: Shift): Shift {
    if s.curr != null then
      if s.curr in s.into.store && HasBucket(s.into, 0) then
        var cell := s.into.store[s.curr];
        var d := Slot(h, |s.into.buckets|, cell.key);
        Shift(s.heads, s.b, s.i + 1, cell.next,
              Table(s.into.store[s.curr := cell.(next := s.into.heads[d])], s.into.heads[d := s.curr],
                    s.into.spines[d := [s.curr] + s.into.spines[d]],
                    s.into.buckets[d := [(cell.key, cell.value)] + s.into.buckets[d]]),
              s.moved[cell.key := cell.value])
      else s
    else if s.b < |s.heads| then
      var released := s.heads[s.b := null];
      s.(heads := released, b := s.b + 1, i := 0, curr := HeadAt(released, s.b + 1))
    else s
  }

  lemma {:induction false} ReleaseStep(h: Hash, s: Shift)
    requires s.curr == null && s.b < |s.heads|
    ensures var s' := Step(h, s);
            && s'.heads == s.heads[s.b := null] && s'.b == s.b + 1 && s'.curr == HeadAt(s'.heads, s'.b)
            && s'.into == s.into
  {
  }

  ghost function Steps(h: Hash, s: Shift, k: nat): Shift {
    if k == 0 then s else Step(h, Steps(h, s, k - 1))
  }

  /** What every step keeps; t is the table before the resize. */
  ghost predicate Shifting(h: Hash, m: map<Str, Str>, t: Table, s: Shift) {
    var a := s.into;
    && |s.heads| == |t.spines| == |t.buckets| && s.b <= |s.heads| && a.store.Keys == t.store.Keys
    && (if s.b < |s.heads| then
          && Relinking(h, m, a.store, s.heads, t.spines, t.buckets, s.b, s.i, s.curr, a.heads, a.spines, a.buckets, s.moved)
          && InUse(a.spines) == InUse(t.spines[..s.b]) + NodesOf(t.spines[s.b][..s.i])
        else
          && s.i == 0 && s.curr == null && Moving(h, t.buckets, m, s.b, 0, a.buckets, s.moved)
          && Linked(a.store, a.heads, a.spines, a.buckets, 0)
          && InUse(a.spines) == InUse(t.spines))
  }

  lemma {:induction false} StartShifting(h: Hash, m: map<Str, Str>, t: Table)
    requires Good(h, t, m)
    ensures Shifting(h, m, t, Start(t, 2 * |t.buckets|))
  {
    var s := Start(t, 2 * |t.buckets|);
    StartMoving(h, t.buckets, m, s.into.buckets);
    InUseEmpty(s.into.spines);
    AllChains(t.store, s.into.heads, s.into.spines, s.into.buckets, 0);
  }

  lemma {:induction false} NodeStepRelinks(h: Hash, m: map<Str, Str>, t: Table, s: Shift)
    requires Represents(h, t.buckets, m) && Shifting(h, m, t, s) && s.curr != null
    ensures s.curr in s.into.store && HasBucket(s.into, 0) && s.i < |t.spines[s.b]| && s.curr == t.spines[s.b][s.i]
    ensures var s' := Step(h, s);
            Relinking(h, m, s'.into.store, s.heads, t.spines, t.buckets, s.b, s.i + 1, s'.curr,
                      s'.into.heads, s'.into.spines, s'.into.buckets, s'.moved)
  {
    var a := s.into;
    RelinkNode(h, m, a.store, s.heads, t.spines, t.buckets, s.b, s.i, s.curr, a.heads, a.spines, a.buckets, s.moved);
    var (key, value) := t.buckets[s.b][s.i];
    assert a.store[s.curr].key == key && a.store[s.curr].value == value;
  }

  lemma {:induction false} NodeStep(h: Hash, m: map<Str, Str>, t: Table, s: Shift)
    requires Represents(h, t.buckets, m) && Shifting(h, m, t, s) && s.curr != null
    ensures Shifting(h, m, t, Step(h, s))
  {
    NodeStepRelinks(h, m, t, s);
    NodeStepUses(h, t.spines[s.b], s, InUse(t.spines[..s.b]));
  }

  lemma {:induction false} NodeStepUses(h: Hash, ns: seq<Node>, s: Shift, before: set<Node>)
    requires s.curr != null && s.curr in s.into.store && HasBucket(s.into, 0) && s.i < |ns| && s.curr == ns[s.i]
    requires InUse(s.into.spines) == before + NodesOf(ns[..s.i])
    ensures InUse(Step(h, s).into.spines) == before + NodesOf(ns[..s.i + 1])
  {
    InUsePush(s.into.spines, Slot(h, |s.into.buckets|, s.into.store[s.curr].key), s.curr);
    assert ns[..s.i + 1] == ns[..s.i] + [s.curr];
  }

  /** Releasing a bucket leaves the ones behind it alone. */
  lemma {:induction false} Released(store: Store, heads: seq<Node?>, spines: seq<seq<Node>>, buckets: seq<Chain>, b: nat)
    requires Linked(store, heads, spines, buckets, b + 1) && b < |heads|
    ensures Linked(store, heads[b := null], spines, buckets, b + 1)
  {
    forall d | b + 1 <= d < |heads| ensures Chained(store, heads[b := null][d], spines[d], buckets[d], 0) {
      ChainAt(store, heads, spines, buckets, b + 1, d);
    }
    AllChains(store, heads[b := null], spines, buckets, b + 1);
  }

  lemma {:induction false} BucketStep(h: Hash, m: map<Str, Str>, t: Table, s: Shift)
    requires Represents(h, t.buckets, m) && Shifting(h, m, t, s) && s.curr == null && s.b < |s.heads|
    ensures Shifting(h, m, t, Step(h, s))
  {
    var b, ns := s.b, t.spines[s.b];
    assert s.i == |ns| && ns[..|ns|] == ns;
    NextBucket(h, t.buckets, m, b, s.into.buckets, s.moved);
    InUseNext(t.spines, b);
    Released(s.into.store, s.heads, t.spines, t.buckets, b);
    if b + 1 < |s.heads| {
      assert t.spines[b + 1][..0] == [];
    } else {
      assert t.spines[..b + 1] == t.spines;
    }
  }

  /** Every state of the resize is in order. */
  lemma {:induction false} AlwaysShifting(h: Hash, m: map<Str, Str>, t: Table, k: nat)
    requires Good(h, t, m)
    ensures Shifting(h, m, t, Steps(h, Start(t, 2 * |t.buckets|), k))
  {
    if k == 0 {
      StartShifting(h, m, t);
    } else {
      AlwaysShifting(h, m, t, k - 1);
      var s := Steps(h, Start(t, 2 * |t.buckets|), k - 1);
      if s.curr != null { NodeStep(h, m, t, s); } else if s.b < |s.heads| { BucketStep(h, m, t, s); }
    }
  }

  /** How many nodes of the current chain are still to move. */
  ghost function Left(t: Table, s: Shift): nat {
    if s.b < |t.spines| && s.i < |t.spines[s.b]| then |t.spines[s.b]| - s.i else 0
  }

  lemma {:induction false} LeftDrops(t: Table, s: Shift, s': Shift)
    requires Movable(t, s) && s.curr != null && s'.b == s.b && s'.i == s.i + 1
    ensures Left(t, s') < Left(t, s)
  {
  }

  /** What the loops need to know of a state. */
  ghost predicate Movable(t: Table, s: Shift) {
    && |s.heads| == |t.spines| && s.into.store.Keys == t.store.Keys
    && |s.into.heads| == |s.into.spines| == |s.into.buckets| == 2 * |t.buckets| > 0
    && (s.curr != null ==> s.curr in s.into.store && s.b < |s.heads| && s.i < |t.spines[s.b]|)
  }

  ghost predicate AllMovable(h: Hash, t: Table, start: Shift) {
    forall k: nat {:trigger Movable(t, Steps(h, start, k))} :: Movable(t, Steps(h, start, k))
  }

  lemma {:induction false} AlwaysMovable(h: Hash, m: map<Str, Str>, t: Table)
    requires Good(h, t, m)
    ensures AllMovable(h, t, Start(t, 2 * |t.buckets|))
  {
    var start := Start(t, 2 * |t.buckets|);
    forall k: nat ensures Movable(t, Steps(h, start, k)) {
      AlwaysShifting(h, m, t, k);
      var s := Steps(h, start, k);
      if s.curr != null { assert LinkAt(s.into.store, t.spines[s.b], t.buckets[s.b], s.i); }
    }
  }

  /** Past the last bucket the new table stores the same map in the same nodes, in twice the buckets. */
  lemma {:induction false} Shifted(h: Hash, m: map<Str, Str>, t: Table, k: nat)
    requires Good(h, t, m)
    ensures var s := Steps(h, Start(t, 2 * |t.buckets|), k);
            s.b >= |t.buckets| ==>
              && Good(h, s.into, m) && |s.into.heads| == 2 * |t.heads| && InUse(s.into.spines) == InUse(t.spines)
  {
    AlwaysShifting(h, m, t, k);
    var s := Steps(h, Start(t, 2 * |t.buckets|), k);
    if s.b >= |t.buckets| { AllMoved(h, t.buckets, m, s.into.buckets, s.moved); }
  }
}
