/** Searches over an AVL tree, stated against its in-order sequence, and the
    bound that balance puts on its height. */
module AvlQueries {
  import opened Basics
  import opened Orders
  import opened AvlShape
  import opened AvlContents

  /** findNode: the node holding k, or Leaf. */
  function FindNode<K, V>(less: (K, K) -> bool, t: Tree<K, V>, k: K): Tree<K, V> {
    if t.Leaf? then Leaf
    else if less(k, t.key) then FindNode(less, t.left, k)
    else if less(t.key, k) then FindNode(less, t.right, k)
    else t
  }

  function SubtreeSize<K, V>(t: Tree<K, V>): nat {
    if t.Leaf? then 0 else 1 + SubtreeSize(t.left) + SubtreeSize(t.right)
  }

  /** getRank: -1 stands for "absent" all the way up. */
  function GetRank<K, V>(less: (K, K) -> bool, t: Tree<K, V>, k: K): int {
    if t.Leaf? then -1
    else if less(k, t.key) then GetRank(less, t.left, k)
    else if less(t.key, k) then
      var rightRank := GetRank(less, t.right, k);
      if rightRank == -1 then -1 else SubtreeSize(t.left) + 1 + rightRank
    else SubtreeSize(t.left)
  }

  predicate InRange<K>(less: (K, K) -> bool, lo: K, hi: K, k: K) {
    !less(k, lo) && !less(hi, k)
  }

  /** rangeQuery, which does not visit a subtree that lies outside the bounds. */
  function RangeQuery<K, V>(less: (K, K) -> bool, t: Tree<K, V>, lo: K, hi: K): seq<(K, V)> {
    if t.Leaf? then []
    else if InRange(less, lo, hi, t.key) then
      RangeQuery(less, t.left, lo, hi) + [(t.key, t.value)] + RangeQuery(less, t.right, lo, hi)
    else if less(t.key, lo) then RangeQuery(less, t.right, lo, hi)
    else RangeQuery(less, t.left, lo, hi)
  }

  /** The pairs of s whose key lies between the bounds, in s's order. */
  ghost function Between<K, V>(less: (K, K) -> bool, s: seq<(K, V)>, lo: K, hi: K): seq<(K, V)> {
    if s == [] then []
    else (if InRange(less, lo, hi, s[0].0) then [s[0]] else []) + Between(less, s[1..], lo, hi)
  }

  lemma {:induction false} SizeIsLength<K, V>(t: Tree<K, V>)
    ensures SubtreeSize(t) == |InOrder(t)|
  {
    if t.Node? { SizeIsLength(t.left); SizeIsLength(t.right); }
  }

  /** A search finds a key exactly when the tree holds it, with the value the tree maps it to. */
  lemma {:induction false} FindNodeIsLookup<K(!new), V>(less: (K, K) -> bool, t: Tree<K, V>, k: K)
    requires StrictTotal(less) && Sorted(less, InOrder(t))
    ensures FindNode(less, t, k).Node? <==> HasKey(InOrder(t), k)
    ensures FindNode(less, t, k).Node? ==>
      var n := FindNode(less, t, k); n.key == k && (k, n.value) in InOrder(t)
  {
    if t.Node? {
      SearchSide(less, t, k);
      if less(k, t.key) { FindNodeIsLookup(less, t.left, k); }
      else if less(t.key, k) { FindNodeIsLookup(less, t.right, k); }
    }
  }

  /** The rank of a key is its index in sorted order, and -1 exactly when it is absent. */
  lemma {:induction false} RankIsIndex<K(!new), V>(less: (K, K) -> bool, t: Tree<K, V>, k: K)
    requires StrictTotal(less) && Sorted(less, InOrder(t))
    ensures var r := GetRank(less, t, k);
            && (r == -1 <==> !HasKey(InOrder(t), k))
            && (r != -1 ==> 0 <= r < |InOrder(t)| && InOrder(t)[r].0 == k)
  {
    if t.Node? {
      SearchSide(less, t, k);
      SizeIsLength(t.left);
      if less(k, t.key) { RankIsIndex(less, t.left, k); }
      else if less(t.key, k) { RankIsIndex(less, t.right, k); }
    }
  }

  lemma {:induction false} BetweenConcat<K, V>(less: (K, K) -> bool, a: seq<(K, V)>, b: seq<(K, V)>, lo: K, hi: K)
    ensures Between(less, a + b, lo, hi) == Between(less, a, lo, hi) + Between(less, b, lo, hi)
  {
    if a == [] {
      assert a + b == b;
    } else {
      BetweenConcat(less, a[1..], b, lo, hi);
      assert (a + b)[0] == a[0] && (a + b)[1..] == a[1..] + b;
      Assoc(if InRange(less, lo, hi, a[0].0) then [a[0]] else [], Between(less, a[1..], lo, hi), Between(less, b, lo, hi));
    }
  }

  lemma {:induction false} BetweenNone<K(!new), V>(less: (K, K) -> bool, s: seq<(K, V)>, lo: K, hi: K)
    requires forall i :: 0 <= i < |s| ==> !InRange(less, lo, hi, s[i].0)
    ensures Between(less, s, lo, hi) == []
  {
    if s != [] { BetweenNone(less, s[1..], lo, hi); }
  }

  lemma {:induction false} BetweenParts<K(!new), V>(less: (K, K) -> bool, t: Tree<K, V>, lo: K, hi: K)
    requires t.Node?
    ensures Between(less, InOrder(t), lo, hi)
         == Between(less, InOrder(t.left), lo, hi)
            + (if InRange(less, lo, hi, t.key) then [(t.key, t.value)] else [])
            + Between(less, InOrder(t.right), lo, hi)
  {
    var a, x, b := InOrder(t.left), (t.key, t.value), InOrder(t.right);
    BetweenConcat(less, a + [x], b, lo, hi);
    BetweenConcat(less, a, [x], lo, hi);
    assert Between(less, [x], lo, hi) == if InRange(less, lo, hi, t.key) then [x] else [];
  }

  /** Pruning loses nothing: a range query is the filter of the in-order sequence. */
  lemma {:induction false} RangeQueryIsFilter<K(!new), V>(less: (K, K) -> bool, t: Tree<K, V>, lo: K, hi: K)
    requires StrictTotal(less) && Sorted(less, InOrder(t))
    ensures RangeQuery(less, t, lo, hi) == Between(less, InOrder(t), lo, hi)
  {
    if t.Node? {
      SortedParts(less, InOrder(t.left), (t.key, t.value), InOrder(t.right));
      BetweenParts(less, t, lo, hi);
      RangeQueryIsFilter(less, t.left, lo, hi);
      RangeQueryIsFilter(less, t.right, lo, hi);
      if less(t.key, lo) {
        BetweenNone(less, InOrder(t.left), lo, hi);
      } else if less(hi, t.key) {
        BetweenNone(less, InOrder(t.right), lo, hi);
      }
    }
  }

  // ---------- Height ----------

  ghost function Fib(n: nat): nat {
    if n < 2 then n else Fib(n - 1) + Fib(n - 2)
  }

  ghost function Pow2(n: nat): nat {
    if n == 0 then 1 else 2 * Pow2(n - 1)
  }

  lemma {:induction false} FibMonotone(m: nat, n: nat)
    requires 1 <= m <= n
    ensures Fib(m) <= Fib(n)
    decreases n
  {
    if m < n { FibMonotone(m, n - 1); }
  }

  /** A balanced tree of height h has at least Fib(h + 2) - 1 nodes. */
  lemma {:induction false} BalancedTreesAreFull<K, V>(t: Tree<K, V>)
    requires Avl(t)
    ensures |InOrder(t)| >= Fib(Height(t) + 2) - 1
  {
    if t.Node? {
      BalancedTreesAreFull(t.left);
      BalancedTreesAreFull(t.right);
      var h := Height(t);
      FibMonotone(h, Height(t.left) + 2);
      FibMonotone(h, Height(t.right) + 2);
      assert Fib(h + 2) == Fib(h + 1) + Fib(h);
    }
  }

  ghost function Square(n: nat): nat { n * n }

  lemma {:induction false} SquareMonotone(a: nat, b: nat)
    requires a <= b
    ensures Square(a) <= Square(b)
  {
  }

  lemma {:induction false} FibSquare(h: nat)
    ensures Square(Fib(h + 2)) >= Pow2(h)
  {
    if h < 2 {
      assert Fib(2) == 1 && Fib(3) == 2;
    } else {
      FibSquare(h - 2);
      FibMonotone(h, h + 1);
      SquareMonotone(2 * Fib(h), Fib(h + 2));
      assert Square(2 * Fib(h)) == 4 * Square(Fib(h));
    }
  }

  /** Height is at most twice the logarithm of the size: 2^h <= (n + 1)^2. */
  lemma {:induction false} HeightIsLogarithmic<K, V>(t: Tree<K, V>)
    requires Avl(t)
    ensures Pow2(Height(t)) <= Square(|InOrder(t)| + 1)
  {
    BalancedTreesAreFull(t);
    FibSquare(Height(t));
    SquareMonotone(Fib(Height(t) + 2), |InOrder(t)| + 1);
  }
}
