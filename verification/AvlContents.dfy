/** What an AVL tree holds: its in-order sequence, the map that sequence stands
    for, and what insertion and removal do to both. */
module AvlContents {
  import opened Basics
  import opened Orders
  import opened AvlShape

  /** inorderTraversal. */
  function InOrder<K, V>(t: Tree<K, V>): seq<(K, V)> {
    if t.Leaf? then [] else InOrder(t.left) + [(t.key, t.value)] + InOrder(t.right)
  }

  /** Strictly increasing keys. */
  ghost predicate Sorted<K(!new), V>(less: (K, K) -> bool, s: seq<(K, V)>) {
    forall i, j :: 0 <= i < j < |s| ==> less(s[i].0, s[j].0)
  }

  ghost predicate HasKey<K, V>(s: seq<(K, V)>, k: K) {
    exists i :: 0 <= i < |s| && s[i].0 == k
  }

  /** The finite map a list of pairs stands for. */
  ghost function MapOf<K, V>(s: seq<(K, V)>): map<K, V> {
    if s == [] then map[] else MapOf(s[1..])[s[0].0 := s[0].1]
  }

  /** A search tree in AVL balance. */
  ghost predicate Valid<K(!new), V>(less: (K, K) -> bool, t: Tree<K, V>) {
    Avl(t) && Sorted(less, InOrder(t))
  }

  // ---------- Sorted lists ----------

  /** Put (k, v) where it belongs in a sorted list, replacing an equal key. */
  ghost function Put<K(!new), V>(less: (K, K) -> bool, s: seq<(K, V)>, k: K, v: V): seq<(K, V)> {
    if s == [] then [(k, v)]
    else if less(k, s[0].0) then [(k, v)] + s
    else if less(s[0].0, k) then [s[0]] + Put(less, s[1..], k, v)
    else [(k, v)] + s[1..]
  }

  ghost function Drop<K, V>(s: seq<(K, V)>, k: K): seq<(K, V)> {
    if s == [] then [] else if s[0].0 == k then s[1..] else [s[0]] + Drop(s[1..], k)
  }

  lemma {:induction false} SortedParts<K(!new), V>(less: (K, K) -> bool, a: seq<(K, V)>, x: (K, V), b: seq<(K, V)>)
    requires Sorted(less, a + [x] + b)
    ensures Sorted(less, a) && Sorted(less, b)
    ensures forall i :: 0 <= i < |a| ==> less(a[i].0, x.0)
    ensures forall i :: 0 <= i < |b| ==> less(x.0, b[i].0)
  {
    var s := a + [x] + b;
    assert forall i :: 0 <= i < |a| ==> a[i] == s[i];
    assert s[|a|] == x;
    assert forall i :: 0 <= i < |b| ==> b[i] == s[|a| + 1 + i];
  }

  lemma {:induction false} MapKeys<K, V>(s: seq<(K, V)>, k: K)
    ensures k in MapOf(s) <==> HasKey(s, k)
  {
    if s != [] {
      MapKeys(s[1..], k);
      assert forall i :: 0 <= i < |s[1..]| ==> s[1..][i] == s[i + 1];
      if HasKey(s, k) && s[0].0 != k {
        var i :| 0 <= i < |s| && s[i].0 == k;
        assert s[1..][i - 1].0 == k;
      }
    }
  }

  lemma {:induction false} PutKeys<K(!new), V>(less: (K, K) -> bool, s: seq<(K, V)>, k: K, v: V)
    ensures forall e :: e in Put(less, s, k, v) ==> e == (k, v) || e in s
  {
    if s != [] { PutKeys(less, s[1..], k, v); }
  }

  lemma {:induction false} PutSorted<K(!new), V>(less: (K, K) -> bool, s: seq<(K, V)>, k: K, v: V)
    requires StrictTotal(less) && Sorted(less, s)
    ensures Sorted(less, Put(less, s, k, v))
  {
    if s != [] && less(s[0].0, k) {
      PutSorted(less, s[1..], k, v);
      PutKeys(less, s[1..], k, v);
      var p := Put(less, s[1..], k, v);
      forall i | 0 <= i < |p| ensures less(s[0].0, p[i].0) {
        assert p[i] in p;
      }
    }
  }

  /** Put is map update on a sorted list. */
  lemma {:induction false} PutRefinesUpdate<K(!new), V>(less: (K, K) -> bool, s: seq<(K, V)>, k: K, v: V)
    requires StrictTotal(less) && Sorted(less, s)
    ensures MapOf(Put(less, s, k, v)) == MapOf(s)[k := v]
    ensures |Put(less, s, k, v)| == |s| + if HasKey(s, k) then 0 else 1
  {
    if s != [] {
      var rest := s[1..];
      HasKeyParts([], s[0], rest, k);
      assert [] + [s[0]] + rest == s;
      if less(s[0].0, k) {
        PutRefinesUpdate(less, rest, k, v);
        assert Put(less, s, k, v)[1..] == Put(less, rest, k, v);
      } else if less(k, s[0].0) {
        assert Put(less, s, k, v)[1..] == s;
      } else {
        assert Put(less, s, k, v)[1..] == rest;
      }
    }
  }

  lemma {:induction false} DropAbsent<K, V>(s: seq<(K, V)>, k: K)
    requires !HasKey(s, k)
    ensures Drop(s, k) == s
  {
    if s != [] {
      assert forall i :: 0 <= i < |s[1..]| ==> s[1..][i] == s[i + 1];
      DropAbsent(s[1..], k);
    }
  }

  /** Drop is map deletion on a sorted list. */
  lemma {:induction false} DropRefinesDelete<K(!new), V>(less: (K, K) -> bool, s: seq<(K, V)>, k: K)
    requires StrictTotal(less) && Sorted(less, s)
    ensures Sorted(less, Drop(s, k))
    ensures MapOf(Drop(s, k)) == MapOf(s) - {k}
    ensures |Drop(s, k)| == |s| - if HasKey(s, k) then 1 else 0
    ensures forall e :: e in Drop(s, k) ==> e in s
  {
    if s != [] {
      var rest := s[1..];
      assert forall i :: 0 <= i < |rest| ==> rest[i] == s[i + 1];
      DropRefinesDelete(less, rest, k);
      if s[0].0 == k {
        MapKeys(rest, k);
      } else {
        assert HasKey(s, k) <==> HasKey(rest, k);
        assert Drop(s, k)[1..] == Drop(rest, k);
      }
    }
  }

  lemma {:induction false} PutBefore<K(!new), V>(less: (K, K) -> bool, a: seq<(K, V)>, b: seq<(K, V)>, k: K, v: V)
    requires b != [] && less(k, b[0].0)
    ensures Put(less, a + b, k, v) == Put(less, a, k, v) + b
  {
    if a == [] {
      assert a + b == b;
    } else if less(k, a[0].0) {
    } else {
      assert (a + b)[1..] == a[1..] + b;
      if less(a[0].0, k) {
        PutBefore(less, a[1..], b, k, v);
      }
    }
  }

  lemma {:induction false} PutAfter<K(!new), V>(less: (K, K) -> bool, a: seq<(K, V)>, b: seq<(K, V)>, k: K, v: V)
    requires Asymmetric(less)
    requires forall i :: 0 <= i < |a| ==> less(a[i].0, k)
    ensures Put(less, a + b, k, v) == a + Put(less, b, k, v)
  {
    if a == [] {
      assert a + b == b;
    } else {
      PutAfter(less, a[1..], b, k, v);
      assert (a + b)[1..] == a[1..] + b;
    }
  }

  lemma {:induction false} PutAt<K(!new), V>(less: (K, K) -> bool, a: seq<(K, V)>, x: (K, V), b: seq<(K, V)>, v: V)
    requires Asymmetric(less)
    requires forall i :: 0 <= i < |a| ==> less(a[i].0, x.0)
    ensures Put(less, a + [x] + b, x.0, v) == a + [(x.0, v)] + b
  {
    PutAfter(less, a, [x] + b, x.0, v);
    assert a + [x] + b == a + ([x] + b);
    assert ([x] + b)[1..] == b;
  }

  lemma {:induction false} DropBefore<K, V>(a: seq<(K, V)>, b: seq<(K, V)>, k: K)
    requires !HasKey(b, k)
    ensures Drop(a + b, k) == Drop(a, k) + b
  {
    if a == [] {
      DropAbsent(b, k);
      assert a + b == b;
    } else {
      DropBefore(a[1..], b, k);
      assert (a + b)[0] == a[0] && (a + b)[1..] == a[1..] + b;
      Assoc([a[0]], Drop(a[1..], k), b);
    }
  }

  lemma {:induction false} DropAfter<K, V>(a: seq<(K, V)>, b: seq<(K, V)>, k: K)
    requires !HasKey(a, k)
    ensures Drop(a + b, k) == a + Drop(b, k)
  {
    if a == [] {
      assert a + b == b;
    } else {
      assert forall i :: 0 <= i < |a[1..]| ==> a[1..][i] == a[i + 1];
      DropAfter(a[1..], b, k);
      assert (a + b)[0] == a[0] && (a + b)[1..] == a[1..] + b;
      Assoc([a[0]], a[1..], Drop(b, k));
    }
  }

  // ---------- Rotations keep the in-order sequence ----------

  lemma {:induction false} RotateRightInOrder<K, V>(y: Tree<K, V>)
    requires y.Node? && y.left.Node?
    ensures InOrder(RotateRight(y)) == InOrder(y)
  {
  }

  lemma {:induction false} RotateLeftInOrder<K, V>(x: Tree<K, V>)
    requires x.Node? && x.right.Node?
    ensures InOrder(RotateLeft(x)) == InOrder(x)
  {
  }

  lemma {:induction false} RebalanceInsertedInOrder<K(!new), V>(less: (K, K) -> bool, t: Tree<K, V>, k: K)
    requires NearlyAvl(t) && InsertedSide(less, t, k) && Asymmetric(less)
    ensures InOrder(RebalanceInserted(less, t, k)) == InOrder(t)
  {
    if Balance(t) > 1 {
      RotateRightInOrder(t);
      if !less(k, t.left.key) {
        DoubleRightRestores(t);
        RotateLeftInOrder(t.left);
        RotateRightInOrder(t.(left := RotateLeft(t.left)));
      }
    } else if Balance(t) < -1 {
      RotateLeftInOrder(t);
      if !less(t.right.key, k) {
        DoubleLeftRestores(t);
        RotateRightInOrder(t.right);
        RotateLeftInOrder(t.(right := RotateRight(t.right)));
      }
    }
  }

  lemma {:induction false} RebalanceRemovedInOrder<K, V>(t: Tree<K, V>)
    requires NearlyAvl(t)
    ensures InOrder(RebalanceRemoved(t)) == InOrder(t)
  {
    if Balance(t) > 1 {
      RotateRightInOrder(t);
      if Balance(t.left) < 0 {
        DoubleRightRestores(t);
        RotateLeftInOrder(t.left);
        RotateRightInOrder(t.(left := RotateLeft(t.left)));
      }
    } else if Balance(t) < -1 {
      RotateLeftInOrder(t);
      if Balance(t.right) > 0 {
        DoubleLeftRestores(t);
        RotateRightInOrder(t.right);
        RotateLeftInOrder(t.(right := RotateRight(t.right)));
      }
    }
  }

  // ---------- Insertion and removal on the sequence ----------

  /** Inserting into the left subtree, then rebalancing. */
  lemma {:induction false} PutLeft<K(!new), V>(less: (K, K) -> bool, t: Tree<K, V>, l: Tree<K, V>, k: K, v: V)
    requires t.Node? && less(k, t.key)
    requires InOrder(l) == Put(less, InOrder(t.left), k, v)
    ensures InOrder(UpdateHeight(t.(left := l))) == Put(less, InOrder(t), k, v)
  {
    var a, x, b := InOrder(t.left), (t.key, t.value), InOrder(t.right);
    PutBefore(less, a, [x] + b, k, v);
    assert a + [x] + b == a + ([x] + b);
    assert InOrder(l) + [x] + b == InOrder(l) + ([x] + b);
  }

  lemma {:induction false} PutRight<K(!new), V>(less: (K, K) -> bool, t: Tree<K, V>, r: Tree<K, V>, k: K, v: V)
    requires StrictTotal(less) && t.Node? && Sorted(less, InOrder(t)) && less(t.key, k)
    requires InOrder(r) == Put(less, InOrder(t.right), k, v)
    ensures InOrder(UpdateHeight(t.(right := r))) == Put(less, InOrder(t), k, v)
  {
    var a, x, b := InOrder(t.left), (t.key, t.value), InOrder(t.right);
    SortedParts(less, a, x, b);
    PutAfter(less, a + [x], b, k, v);
  }

  lemma {:induction false} PutRoot<K(!new), V>(less: (K, K) -> bool, t: Tree<K, V>, v: V)
    requires StrictTotal(less) && t.Node? && Sorted(less, InOrder(t))
    ensures InOrder(t.(value := v)) == Put(less, InOrder(t), t.key, v)
  {
    SortedParts(less, InOrder(t.left), (t.key, t.value), InOrder(t.right));
    PutAt(less, InOrder(t.left), (t.key, t.value), InOrder(t.right), v);
  }

  lemma {:induction false} InsertLeftPuts<K(!new), V>(less: (K, K) -> bool, t: Tree<K, V>, k: K, v: V)
    requires StrictTotal(less) && Avl(t) && t.Node? && less(k, t.key)
    requires InOrder(InsertNode(less, t.left, k, v).0) == Put(less, InOrder(t.left), k, v)
    ensures InOrder(InsertNode(less, t, k, v).0) == Put(less, InOrder(t), k, v)
  {
    var l := InsertNode(less, t.left, k, v).0;
    GrownLeft(less, t, l, k);
    RebalanceInsertedInOrder(less, UpdateHeight(t.(left := l)), k);
    PutLeft(less, t, l, k, v);
  }

  lemma {:induction false} InsertRightPuts<K(!new), V>(less: (K, K) -> bool, t: Tree<K, V>, k: K, v: V)
    requires StrictTotal(less) && Avl(t) && t.Node? && Sorted(less, InOrder(t)) && less(t.key, k)
    requires InOrder(InsertNode(less, t.right, k, v).0) == Put(less, InOrder(t.right), k, v)
    ensures InOrder(InsertNode(less, t, k, v).0) == Put(less, InOrder(t), k, v)
  {
    var r := InsertNode(less, t.right, k, v).0;
    GrownRight(less, t, r, k);
    RebalanceInsertedInOrder(less, UpdateHeight(t.(right := r)), k);
    PutRight(less, t, r, k, v);
  }

  lemma {:induction false} InsertNodePuts<K(!new), V>(less: (K, K) -> bool, t: Tree<K, V>, k: K, v: V)
    requires StrictTotal(less) && Valid(less, t)
    ensures InOrder(InsertNode(less, t, k, v).0) == Put(less, InOrder(t), k, v)
    ensures InsertNode(less, t, k, v).1 <==> !HasKey(InOrder(t), k)
  {
    if t.Node? {
      SearchSide(less, t, k);
      if less(k, t.key) {
        InsertNodePuts(less, t.left, k, v);
        InsertLeftPuts(less, t, k, v);
      } else if less(t.key, k) {
        InsertNodePuts(less, t.right, k, v);
        InsertRightPuts(less, t, k, v);
      } else {
        PutRoot(less, t, v);
      }
    }
  }

  /** Where a search has to look. */
  lemma {:induction false} SearchSide<K(!new), V>(less: (K, K) -> bool, t: Tree<K, V>, k: K)
    requires StrictTotal(less) && t.Node? && Sorted(less, InOrder(t))
    ensures Sorted(less, InOrder(t.left)) && Sorted(less, InOrder(t.right))
    ensures less(k, t.key) ==> (HasKey(InOrder(t), k) <==> HasKey(InOrder(t.left), k))
    ensures less(t.key, k) ==> (HasKey(InOrder(t), k) <==> HasKey(InOrder(t.right), k))
    ensures k == t.key ==> HasKey(InOrder(t), k)
    ensures !less(t.key, k) ==> !HasKey(InOrder(t.right), k)
    ensures !less(k, t.key) ==> !HasKey(InOrder(t.left), k)
  {
    var a, x, b := InOrder(t.left), (t.key, t.value), InOrder(t.right);
    SortedParts(less, a, x, b);
    HasKeyParts(a, x, b, k);
  }

  lemma {:induction false} HasKeyParts<K, V>(a: seq<(K, V)>, x: (K, V), b: seq<(K, V)>, k: K)
    ensures HasKey(a + [x] + b, k) <==> HasKey(a, k) || x.0 == k || HasKey(b, k)
  {
    var s := a + [x] + b;
    assert forall i :: 0 <= i < |a| ==> a[i] == s[i];
    assert s[|a|] == x;
    assert forall i :: 0 <= i < |b| ==> b[i] == s[|a| + 1 + i];
    assert forall i :: |a| < i < |s| ==> s[i] == b[i - |a| - 1];
  }

  lemma {:induction false} FindMinIsFirst<K, V>(t: Tree<K, V>)
    requires t.Node?
    ensures InOrder(t) != [] && InOrder(t)[0] == (FindMin(t).key, FindMin(t).value)
  {
    if t.left.Node? { FindMinIsFirst(t.left); }
  }

  /** The two-child case: the successor moves up and is dropped from the right subtree. */
  lemma {:induction false} SuccessorReplaces<K(!new), V>(less: (K, K) -> bool, a: seq<(K, V)>, x: (K, V), b: seq<(K, V)>)
    requires StrictTotal(less) && Sorted(less, a + [x] + b) && b != []
    ensures a + [b[0]] + Drop(b, b[0].0) == Drop(a + [x] + b, x.0)
  {
    SortedParts(less, a, x, b);
    DropAfter(a, [x] + b, x.0);
    assert a + [x] + b == a + ([x] + b);
    assert a + [b[0]] + b[1..] == a + b;
  }

  lemma {:induction false} DropLeft<K(!new), V>(less: (K, K) -> bool, t: Tree<K, V>, l: Tree<K, V>, k: K)
    requires StrictTotal(less) && t.Node? && Sorted(less, InOrder(t)) && less(k, t.key)
    requires InOrder(l) == Drop(InOrder(t.left), k)
    ensures InOrder(UpdateHeight(t.(left := l))) == Drop(InOrder(t), k)
  {
    var a, x, b := InOrder(t.left), (t.key, t.value), InOrder(t.right);
    SortedParts(less, a, x, b);
    NotAfter(less, x, b, k);
    DropBefore(a, [x] + b, k);
    Assoc(a, [x], b);
    Assoc(InOrder(l), [x], b);
  }

  lemma NotAfter<K(!new), V>(less: (K, K) -> bool, x: (K, V), b: seq<(K, V)>, k: K)
    requires StrictTotal(less) && less(k, x.0) && forall i :: 0 <= i < |b| ==> less(x.0, b[i].0)
    ensures !HasKey([x] + b, k)
  {
  }

  lemma {:induction false} DropRight<K(!new), V>(less: (K, K) -> bool, t: Tree<K, V>, r: Tree<K, V>, k: K)
    requires StrictTotal(less) && t.Node? && Sorted(less, InOrder(t)) && less(t.key, k)
    requires InOrder(r) == Drop(InOrder(t.right), k)
    ensures InOrder(UpdateHeight(t.(right := r))) == Drop(InOrder(t), k)
  {
    var a, x, b := InOrder(t.left), (t.key, t.value), InOrder(t.right);
    SortedParts(less, a, x, b);
    NotBefore(less, a, x, k);
    DropAfter(a + [x], b, k);
  }

  lemma NotBefore<K(!new), V>(less: (K, K) -> bool, a: seq<(K, V)>, x: (K, V), k: K)
    requires StrictTotal(less) && less(x.0, k) && forall i :: 0 <= i < |a| ==> less(a[i].0, x.0)
    ensures !HasKey(a + [x], k)
  {
  }

  lemma {:induction false} RemoveNodeDrops<K(!new), V>(less: (K, K) -> bool, t: Tree<K, V>, k: K)
    requires StrictTotal(less) && Valid(less, t)
    ensures InOrder(RemoveNode(less, t, k).0) == Drop(InOrder(t), k)
    ensures RemoveNode(less, t, k).1 <==> HasKey(InOrder(t), k)
    decreases t, 1
  {
    if t.Node? {
      SearchSide(less, t, k);
      if less(k, t.key) {
        RemoveNodeDrops(less, t.left, k);
        var l := RemoveNode(less, t.left, k).0;
        RebalanceRemovedInOrder(UpdateHeight(t.(left := l)));
        DropLeft(less, t, l, k);
      } else if less(t.key, k) {
        RemoveNodeDrops(less, t.right, k);
        var r := RemoveNode(less, t.right, k).0;
        RebalanceRemovedInOrder(UpdateHeight(t.(right := r)));
        DropRight(less, t, r, k);
      } else {
        RemoveRootDrops(less, t);
      }
    }
  }

  /** The node itself goes: an only child, or the successor, takes its place. */
  lemma {:induction false} RemoveRootDrops<K(!new), V>(less: (K, K) -> bool, t: Tree<K, V>)
    requires StrictTotal(less) && Valid(less, t) && t.Node?
    ensures InOrder(RemoveNode(less, t, t.key).0) == Drop(InOrder(t), t.key)
    ensures RemoveNode(less, t, t.key).1
    decreases t, 0
  {
    var a, x, b := InOrder(t.left), (t.key, t.value), InOrder(t.right);
    SearchSide(less, t, t.key);
    if t.left.Leaf? || t.right.Leaf? {
      DropAfter(a, [x] + b, t.key);
      assert a + [x] + b == a + ([x] + b);
      assert ([x] + b)[1..] == b;
    } else {
      FindMinIsFirst(t.right);
      var m := FindMin(t.right);
      RemoveNodeDrops(less, t.right, m.key);
      var t' := UpdateHeight(t.(key := m.key, value := m.value, right := RemoveNode(less, t.right, m.key).0));
      RebalanceRemovedInOrder(t');
      SuccessorReplaces(less, a, x, b);
    }
  }

  // ---------- Main results ----------

  /** Insertion keeps a valid tree valid and is exactly map update. */
  lemma {:induction false} InsertRefinesUpdate<K(!new), V>(less: (K, K) -> bool, t: Tree<K, V>, k: K, v: V)
    requires StrictTotal(less) && Valid(less, t)
    ensures var (t', inserted) := InsertNode(less, t, k, v);
            && Valid(less, t')
            && MapOf(InOrder(t')) == MapOf(InOrder(t))[k := v]
            && (inserted <==> k !in MapOf(InOrder(t)))
            && |InOrder(t')| == |InOrder(t)| + if inserted then 1 else 0
  {
    InsertNodePuts(less, t, k, v);
    PutSorted(less, InOrder(t), k, v);
    PutRefinesUpdate(less, InOrder(t), k, v);
    MapKeys(InOrder(t), k);
  }

  /** Removal keeps a valid tree valid and is exactly map deletion. */
  lemma {:induction false} RemoveRefinesDelete<K(!new), V>(less: (K, K) -> bool, t: Tree<K, V>, k: K)
    requires StrictTotal(less) && Valid(less, t)
    ensures var (t', removed) := RemoveNode(less, t, k);
            && Valid(less, t')
            && MapOf(InOrder(t')) == MapOf(InOrder(t)) - {k}
            && (removed <==> k in MapOf(InOrder(t)))
            && |InOrder(t')| == |InOrder(t)| - if removed then 1 else 0
  {
    RemoveNodeDrops(less, t, k);
    DropRefinesDelete(less, InOrder(t), k);
    MapKeys(InOrder(t), k);
  }

  /** A sorted list is determined by its map, so the two results above fix the in-order sequence. */
  lemma {:induction false} SortedListIsUnique<K(!new), V>(less: (K, K) -> bool, s: seq<(K, V)>, u: seq<(K, V)>)
    requires StrictTotal(less) && Sorted(less, s) && Sorted(less, u)
    requires MapOf(s) == MapOf(u)
    ensures s == u
  {
    if s != [] {
      MapKeys(s, s[0].0);
      MapKeys(u, s[0].0);
    }
    if u != [] {
      MapKeys(s, u[0].0);
      MapKeys(u, u[0].0);
    }
    if s != [] && u != [] {
      assert s[0].0 == u[0].0;
      var k := s[0].0;
      assert s == [s[0]] + s[1..] && u == [u[0]] + u[1..];
      MapKeys(s[1..], k);
      MapKeys(u[1..], k);
      assert MapOf(s[1..]) == MapOf(s) - {k};
      assert MapOf(u[1..]) == MapOf(u) - {k};
      SortedListIsUnique(less, s[1..], u[1..]);
    }
  }

  lemma {:induction false} SortedSize<K(!new), V>(less: (K, K) -> bool, s: seq<(K, V)>)
    requires StrictTotal(less) && Sorted(less, s)
    ensures |MapOf(s)| == |s|
  {
    if s != [] {
      SortedSize(less, s[1..]);
      MapKeys(s[1..], s[0].0);
    }
  }

  // ---------- Whole runs ----------

  datatype Op<K, V> = InsertOp(key: K, value: V) | RemoveOp(key: K)

  /** The tree after a run of operations on an empty one. */
  function TreeAfter<K(!new), V>(less: (K, K) -> bool, ops: seq<Op<K, V>>): (t: Tree<K, V>)
    requires Asymmetric(less)
    ensures Avl(t)
  {
    if ops == [] then Leaf
    else
      var t := TreeAfter(less, ops[..|ops| - 1]);
      match ops[|ops| - 1]
      case InsertOp(k, v) => InsertNode(less, t, k, v).0
      case RemoveOp(k) => RemoveNode(less, t, k).0
  }

  /** The same run on a plain map. */
  ghost function MapAfter<K, V>(ops: seq<Op<K, V>>): map<K, V> {
    if ops == [] then map[]
    else
      var m := MapAfter(ops[..|ops| - 1]);
      match ops[|ops| - 1]
      case InsertOp(k, v) => m[k := v]
      case RemoveOp(k) => m - {k}
  }

  /** After every run the tree is balanced, sorted, and holds exactly the map. */
  lemma {:induction false} RunsRefineTheMap<K(!new), V>(less: (K, K) -> bool, ops: seq<Op<K, V>>)
    requires StrictTotal(less)
    ensures Valid(less, TreeAfter(less, ops))
    ensures MapOf(InOrder(TreeAfter(less, ops))) == MapAfter(ops)
    ensures |InOrder(TreeAfter(less, ops))| == |MapAfter(ops)|
  {
    if ops != [] {
      RunsRefineTheMap(less, ops[..|ops| - 1]);
      var t := TreeAfter(less, ops[..|ops| - 1]);
      match ops[|ops| - 1]
      case InsertOp(k, v) => InsertRefinesUpdate(less, t, k, v);
      case RemoveOp(k) => RemoveRefinesDelete(less, t, k);
    }
    SortedSize(less, InOrder(TreeAfter(less, ops)));
  }
}
