/** The AVL tree as a value: what its links look like, and the insertion and
    removal that rebalance it. Contents and order are in AvlContents. */
module AvlShape {
  import opened Orders

  /** A node with its stored height; a null pointer is Leaf. */
  datatype Tree<K, V> = Leaf | Node(key: K, value: V, height: nat, left: Tree<K, V>, right: Tree<K, V>)

  function Max(a: int, b: int): int { if a < b then b else a }

  /** The height a node claims to have. */
  function Height<K, V>(t: Tree<K, V>): nat { if t.Leaf? then 0 else t.height }

  function Balance<K, V>(t: Tree<K, V>): int {
    if t.Leaf? then 0 else Height(t.left) - Height(t.right)
  }

  /** Every node stores one more than its taller child and leans by at most one. */
  ghost predicate Avl<K, V>(t: Tree<K, V>) {
    t.Node? ==>
      && t.height == 1 + Max(Height(t.left), Height(t.right))
      && -1 <= Balance(t) <= 1
      && Avl(t.left) && Avl(t.right)
  }

  /** The height a tree really has: the longest path to a leaf. */
  ghost function TrueHeight<K, V>(t: Tree<K, V>): nat {
    if t.Leaf? then 0 else 1 + Max(TrueHeight(t.left), TrueHeight(t.right))
  }

  lemma {:induction false} StoredHeightIsTrue<K, V>(t: Tree<K, V>)
    requires Avl(t)
    ensures Height(t) == TrueHeight(t)
  {
    if t.Node? { StoredHeightIsTrue(t.left); StoredHeightIsTrue(t.right); }
  }

  function UpdateHeight<K, V>(t: Tree<K, V>): Tree<K, V> {
    if t.Leaf? then t else t.(height := 1 + Max(Height(t.left), Height(t.right)))
  }

  function RotateRight<K, V>(y: Tree<K, V>): Tree<K, V>
    requires y.Node? && y.left.Node?
  {
    var x := y.left;
    UpdateHeight(x.(right := UpdateHeight(y.(left := x.right))))
  }

  function RotateLeft<K, V>(x: Tree<K, V>): Tree<K, V>
    requires x.Node? && x.right.Node?
  {
    var y := x.right;
    UpdateHeight(y.(left := UpdateHeight(x.(right := y.left))))
  }

  /** A node whose subtrees are balanced and whose own lean is at most two. */
  ghost predicate NearlyAvl<K, V>(t: Tree<K, V>) {
    && t.Node?
    && Avl(t.left) && Avl(t.right)
    && t.height == 1 + Max(Height(t.left), Height(t.right))
    && -2 <= Balance(t) <= 2
  }

  /** A left-heavy node over a child that does not lean right: one rotation. */
  lemma {:induction false} SingleRightRestores<K, V>(t: Tree<K, V>)
    requires NearlyAvl(t) && Balance(t) == 2 && Balance(t.left) >= 0
    ensures var r := RotateRight(t);
            Avl(r) && Height(r) == Height(t) - (if Balance(t.left) == 0 then 0 else 1)
  {
  }

  lemma {:induction false} SingleLeftRestores<K, V>(t: Tree<K, V>)
    requires NearlyAvl(t) && Balance(t) == -2 && Balance(t.right) <= 0
    ensures var r := RotateLeft(t);
            Avl(r) && Height(r) == Height(t) - (if Balance(t.right) == 0 then 0 else 1)
  {
  }

  /** A left-heavy node over a right-leaning child: two rotations. */
  lemma {:induction false} DoubleRightRestores<K, V>(t: Tree<K, V>)
    requires NearlyAvl(t) && Balance(t) == 2 && Balance(t.left) < 0
    ensures t.left.right.Node?
    ensures var r := RotateRight(t.(left := RotateLeft(t.left)));
            Avl(r) && Height(r) == Height(t) - 1
  {
    assert Avl(t.left.left) && Avl(t.left.right);
  }

  lemma {:induction false} DoubleLeftRestores<K, V>(t: Tree<K, V>)
    requires NearlyAvl(t) && Balance(t) == -2 && Balance(t.right) > 0
    ensures t.right.left.Node?
    ensures var r := RotateLeft(t.(right := RotateRight(t.right)));
            Avl(r) && Height(r) == Height(t) - 1
  {
    assert Avl(t.right.left) && Avl(t.right.right);
  }

  /** The subtree of t towards k is the taller one. */
  predicate LeansTowards<K, V>(less: (K, K) -> bool, t: Tree<K, V>, k: K) {
    && t.Node?
    && (less(k, t.key) ==> Balance(t) == 1)
    && (!less(k, t.key) ==> less(t.key, k) && Balance(t) == -1)
  }

  /** What insertion of k may leave on the side it went down. */
  predicate InsertedSide<K, V>(less: (K, K) -> bool, t: Tree<K, V>, k: K) {
    && (Balance(t) > 1 ==> LeansTowards(less, t.left, k))
    && (Balance(t) < -1 ==> LeansTowards(less, t.right, k))
  }

  /** The rotation insertNode picks by comparing the inserted key with the heavy child's key. */
  function RebalanceInserted<K(!new), V>(less: (K, K) -> bool, t: Tree<K, V>, k: K): (r: Tree<K, V>)
    requires NearlyAvl(t) && InsertedSide(less, t, k)
    requires Asymmetric(less)
    ensures Avl(r) && r.Node?
    ensures Balance(t) in {-2, 2} ==> Height(r) == Height(t) - 1
    ensures Balance(t) !in {-2, 2} ==> r == t
  {
    var balance := Balance(t);
    if balance > 1 && less(k, t.left.key) then
      SingleRightRestores(t);
      RotateRight(t)
    else if balance < -1 && less(t.right.key, k) then
      SingleLeftRestores(t);
      RotateLeft(t)
    else if balance > 1 && less(t.left.key, k) then
      DoubleRightRestores(t);
      RotateRight(t.(left := RotateLeft(t.left)))
    else if balance < -1 && less(k, t.right.key) then
      DoubleLeftRestores(t);
      RotateLeft(t.(right := RotateRight(t.right)))
    else t
  }

  /** What insertion of k into u promises about its result r. */
  ghost predicate Grown<K, V>(less: (K, K) -> bool, u: Tree<K, V>, r: Tree<K, V>, k: K) {
    && Avl(r) && r.Node?
    && Height(u) <= Height(r) <= Height(u) + 1
    && (Height(r) > Height(u) > 0 ==> LeansTowards(less, r, k))
  }

  lemma {:induction false} GrownLeft<K(!new), V>(less: (K, K) -> bool, t: Tree<K, V>, l: Tree<K, V>, k: K)
    requires Avl(t) && t.Node? && Grown(less, t.left, l, k)
    ensures var u := UpdateHeight(t.(left := l));
            NearlyAvl(u) && InsertedSide(less, u, k)
  {
  }

  lemma {:induction false} GrownRight<K(!new), V>(less: (K, K) -> bool, t: Tree<K, V>, r: Tree<K, V>, k: K)
    requires Avl(t) && t.Node? && Grown(less, t.right, r, k)
    ensures var u := UpdateHeight(t.(right := r));
            NearlyAvl(u) && InsertedSide(less, u, k)
  {
  }

  /** insertNode: the new subtree, and whether a node was created. */
  function InsertNode<K(!new), V>(less: (K, K) -> bool, t: Tree<K, V>, k: K, v: V): (r: (Tree<K, V>, bool))
    requires Avl(t)
    requires Asymmetric(less)
    ensures Grown(less, t, r.0, k)
  {
    if t.Leaf? then (Node(k, v, 1, Leaf, Leaf), true)
    else if less(k, t.key) then
      var (l, inserted) := InsertNode(less, t.left, k, v);
      GrownLeft(less, t, l, k);
      (RebalanceInserted(less, UpdateHeight(t.(left := l)), k), inserted)
    else if less(t.key, k) then
      var (r, inserted) := InsertNode(less, t.right, k, v);
      GrownRight(less, t, r, k);
      (RebalanceInserted(less, UpdateHeight(t.(right := r)), k), inserted)
    else (t.(value := v), false)
  }

  /** The rotation removeNode picks by the heavy child's balance factor. */
  function RebalanceRemoved<K, V>(t: Tree<K, V>): (r: Tree<K, V>)
    requires NearlyAvl(t)
    ensures Avl(r) && r.Node?
    ensures Height(t) - 1 <= Height(r) <= Height(t)
    ensures Balance(t) !in {-2, 2} ==> r == t
  {
    var balance := Balance(t);
    if balance > 1 && Balance(t.left) >= 0 then
      SingleRightRestores(t);
      RotateRight(t)
    else if balance > 1 && Balance(t.left) < 0 then
      DoubleRightRestores(t);
      RotateRight(t.(left := RotateLeft(t.left)))
    else if balance < -1 && Balance(t.right) <= 0 then
      SingleLeftRestores(t);
      RotateLeft(t)
    else if balance < -1 && Balance(t.right) > 0 then
      DoubleLeftRestores(t);
      RotateLeft(t.(right := RotateRight(t.right)))
    else t
  }

  /** findMin: the leftmost node. */
  function FindMin<K, V>(t: Tree<K, V>): (r: Tree<K, V>)
    requires t.Node?
    ensures r.Node? && r.left.Leaf?
  {
    if t.left.Leaf? then t else FindMin(t.left)
  }

  /** removeNode: the new subtree, and the flag its last recursive call left behind. */
  function RemoveNode<K, V>(less: (K, K) -> bool, t: Tree<K, V>, k: K): (r: (Tree<K, V>, bool))
    requires Avl(t)
    ensures Avl(r.0)
    ensures Height(t) - 1 <= Height(r.0) <= Height(t)
    decreases t
  {
    if t.Leaf? then (t, false)
    else if less(k, t.key) then
      var (l, removed) := RemoveNode(less, t.left, k);
      (RebalanceRemoved(UpdateHeight(t.(left := l))), removed)
    else if less(t.key, k) then
      var (r, removed) := RemoveNode(less, t.right, k);
      (RebalanceRemoved(UpdateHeight(t.(right := r))), removed)
    else if t.left.Leaf? || t.right.Leaf? then
      (if t.left.Node? then t.left else t.right, true)
    else
      var m := FindMin(t.right);
      var (r, removed) := RemoveNode(less, t.right, m.key);
      (RebalanceRemoved(UpdateHeight(t.(key := m.key, value := m.value, right := r))), removed)
  }

  /** A subtree that lost at most one level leaves its parent within reach of a rotation. */
  lemma {:induction false} ShrunkLeft<K, V>(t: Tree<K, V>, l: Tree<K, V>)
    requires Avl(t) && t.Node? && Avl(l) && Height(t.left) - 1 <= Height(l) <= Height(t.left)
    ensures NearlyAvl(UpdateHeight(t.(left := l)))
  {
  }

  lemma {:induction false} ShrunkRight<K, V>(t: Tree<K, V>, k: K, v: V, r: Tree<K, V>)
    requires Avl(t) && t.Node? && Avl(r) && Height(t.right) - 1 <= Height(r) <= Height(t.right)
    ensures NearlyAvl(UpdateHeight(t.(key := k, value := v, right := r)))
  {
  }
}
