/** The AVL tree as the program has it: nodes on the heap, relinked and
    overwritten in place, for the one instantiation the program makes
    (sorted-set entries to bool). Every method is tied to the tree value its
    nodes form, so what AvlShape, AvlContents and AvlQueries prove holds of it. */
module AvlHeap {
  import opened Orders
  import opened AvlShape
  import C = AvlContents
  import Q = AvlQueries

  type Index = Tree<Entry, bool>

  class AvlNode {
    var key: Entry
    var value: bool
    var height: nat
    var left: AvlNode?
    var right: AvlNode?
    ghost var repr: set<AvlNode>
    ghost var tree: Index

    constructor (k: Entry, v: bool)
      ensures Valid() && fresh(repr)
      ensures tree == Node(k, v, 1, Leaf, Leaf)
    {
      key, value, height, left, right := k, v, 1, null, null;
      repr := {this};
      tree := Node(k, v, 1, Leaf, Leaf);
    }

    /** The nodes below this one form a tree, unshared, and `tree` is its value. */
    ghost predicate Valid()
      reads this, repr
      ensures Valid() ==> this in repr && tree.Node?
      decreases repr
    {
      && this in repr
      && (left != null ==> left in repr && left.repr <= repr && this !in left.repr && left.Valid())
      && (right != null ==> right in repr && right.repr <= repr && this !in right.repr && right.Valid())
      && (left != null && right != null ==> left.repr !! right.repr)
      && tree == Node(key, value, height, TreeOf(left), TreeOf(right))
    }

    /** Hang l on the left and bring the height up to date. */
    method SetLeft(l: AvlNode?, ghost t: Index)
      requires t.Node? && t.key == key && t.value == value && t.right == TreeOf(right)
      requires ValidOrNull(l) && this !in ReprOf(l)
      requires ValidOrNull(right) && this !in ReprOf(right) && ReprOf(l) !! ReprOf(right)
      modifies this`left, this`height, this`repr, this`tree
      ensures Valid() && repr == {this} + ReprOf(l) + ReprOf(right)
      ensures tree == AvlShape.UpdateHeight(t.(left := TreeOf(l)))
    {
      left := l;
      UpdateHeight();
    }

    method SetRight(r: AvlNode?, ghost t: Index)
      requires t.Node? && t.key == key && t.value == value && t.left == TreeOf(left)
      requires ValidOrNull(r) && this !in ReprOf(r)
      requires ValidOrNull(left) && this !in ReprOf(left) && ReprOf(left) !! ReprOf(r)
      modifies this`right, this`height, this`repr, this`tree
      ensures Valid() && repr == {this} + ReprOf(left) + ReprOf(r)
      ensures tree == AvlShape.UpdateHeight(t.(right := TreeOf(r)))
    {
      right := r;
      UpdateHeight();
    }

    /** updateHeight, once the children are in place. */
    method UpdateHeight()
      requires left != null ==> left.Valid() && this !in left.repr
      requires right != null ==> right.Valid() && this !in right.repr
      requires left != null && right != null ==> left.repr !! right.repr
      modifies this`height, this`repr, this`tree
      ensures Valid()
      ensures repr == {this} + ReprOf(left) + ReprOf(right)
      ensures height == 1 + Max(Height(TreeOf(left)), Height(TreeOf(right)))
      ensures tree == Node(key, value, height, TreeOf(left), TreeOf(right))
    {
      height := 1 + Max(HeightOf(left), HeightOf(right));
      repr := {this} + ReprOf(left) + ReprOf(right);
      tree := Node(key, value, height, TreeOf(left), TreeOf(right));
    }
  }

  ghost function TreeOf(n: AvlNode?): Index
    reads n
  {
    if n == null then Leaf else n.tree
  }

  ghost function ReprOf(n: AvlNode?): set<AvlNode>
    reads n
  {
    if n == null then {} else n.repr
  }

  ghost predicate ValidOrNull(n: AvlNode?)
    reads n, ReprOf(n)
  {
    n != null ==> n.Valid()
  }

  /** getHeight. */
  function HeightOf(n: AvlNode?): nat
    reads n
  {
    if n == null then 0 else n.height
  }

  method RotateRight(y: AvlNode) returns (x: AvlNode)
    requires y.Valid() && y.left != null
    modifies y, y.left
    ensures x.Valid() && x.repr <= old(y.repr)
    ensures x.tree == AvlShape.RotateRight(old(y.tree))
  {
    x := y.left;
    var t2 := x.right;
    ghost var t := y.tree;
    x.right := y;
    y.left := t2;
    y.UpdateHeight();
    assert y.tree == AvlShape.UpdateHeight(t.(left := t.left.right));
    assert y.repr <= old(y.repr) && x !in y.repr;
    x.UpdateHeight();
  }

  method RotateLeft(x: AvlNode) returns (y: AvlNode)
    requires x.Valid() && x.right != null
    modifies x, x.right
    ensures y.Valid() && y.repr <= old(x.repr)
    ensures y.tree == AvlShape.RotateLeft(old(x.tree))
  {
    y := x.right;
    var t2 := y.left;
    ghost var t := x.tree;
    y.left := x;
    x.right := t2;
    x.UpdateHeight();
    assert x.tree == AvlShape.UpdateHeight(t.(right := t.right.left));
    assert x.repr <= old(x.repr) && y !in x.repr;
    y.UpdateHeight();
  }

  /** The case split after an insertion below node. */
  method RebalanceInserted(node: AvlNode, k: Entry) returns (r: AvlNode)
    requires node.Valid() && NearlyAvl(node.tree) && InsertedSide(EntryLess, node.tree, k)
    requires Asymmetric(EntryLess)
    modifies node.repr
    ensures r.Valid() && r.repr <= old(node.repr)
    ensures r.tree == AvlShape.RebalanceInserted(EntryLess, old(node.tree), k)
  {
    var balance := HeightOf(node.left) - HeightOf(node.right);
    if balance > 1 && EntryLess(k, node.left.key) {
      r := RotateRight(node);
    } else if balance < -1 && EntryLess(node.right.key, k) {
      r := RotateLeft(node);
    } else if balance > 1 && EntryLess(node.left.key, k) {
      r := DoubleRight(node);
    } else if balance < -1 && EntryLess(k, node.right.key) {
      r := DoubleLeft(node);
    } else {
      r := node;
    }
  }

  method DoubleRight(node: AvlNode) returns (r: AvlNode)
    requires node.Valid() && NearlyAvl(node.tree) && Balance(node.tree) == 2 && Balance(node.tree.left) < 0
    modifies node.repr
    ensures r.Valid() && r.repr <= old(node.repr)
    ensures old(node.tree).left.right.Node?
    ensures r.tree == AvlShape.RotateRight(old(node.tree).(left := AvlShape.RotateLeft(old(node.tree).left)))
  {
    DoubleRightRestores(node.tree);
    var l := RotateLeft(node.left);
    node.left := l;
    node.tree := node.tree.(left := l.tree);
    r := RotateRight(node);
  }

  method DoubleLeft(node: AvlNode) returns (r: AvlNode)
    requires node.Valid() && NearlyAvl(node.tree) && Balance(node.tree) == -2 && Balance(node.tree.right) > 0
    modifies node.repr
    ensures r.Valid() && r.repr <= old(node.repr)
    ensures old(node.tree).right.left.Node?
    ensures r.tree == AvlShape.RotateLeft(old(node.tree).(right := AvlShape.RotateRight(old(node.tree).right)))
  {
    DoubleLeftRestores(node.tree);
    var l := RotateRight(node.right);
    node.right := l;
    node.tree := node.tree.(right := l.tree);
    r := RotateLeft(node);
  }

  /** insertNode. */
  method InsertInto(node: AvlNode?, k: Entry, v: bool) returns (r: AvlNode, inserted: bool)
    requires ValidOrNull(node) && Avl(TreeOf(node)) && Asymmetric(EntryLess)
    modifies ReprOf(node)
    ensures r.Valid() && fresh(r.repr - old(ReprOf(node)))
    ensures (r.tree, inserted) == AvlShape.InsertNode(EntryLess, old(TreeOf(node)), k, v)
    decreases TreeOf(node), 1
  {
    if node == null {
      r := new AvlNode(k, v);
      inserted := true;
    } else if EntryLess(k, node.key) {
      inserted := InsertLeft(node, k, v);
      GrownLeft(EntryLess, old(node.tree), node.tree.left, k);
      r := RebalanceInserted(node, k);
    } else if EntryLess(node.key, k) {
      inserted := InsertRight(node, k, v);
      GrownRight(EntryLess, old(node.tree), node.tree.right, k);
      r := RebalanceInserted(node, k);
    } else {
      node.value := v;
      node.tree := node.tree.(value := v);
      r, inserted := node, false;
    }
  }

  /** The step down to the left, with the height brought up to date. */
  method InsertLeft(node: AvlNode, k: Entry, v: bool) returns (inserted: bool)
    requires node.Valid() && Avl(node.tree) && Asymmetric(EntryLess)
    modifies node.repr
    ensures node.Valid() && fresh(node.repr - old(node.repr))
    ensures var (l, ins) := AvlShape.InsertNode(EntryLess, old(node.tree).left, k, v);
            inserted == ins && node.tree == UpdateHeight(old(node.tree).(left := l))
    decreases node.tree, 0
  {
    ghost var t := node.tree;
    var l;
    l, inserted := InsertInto(node.left, k, v);
    assert ValidOrNull(node.right) && TreeOf(node.right) == t.right;
    assert node !in l.repr && l.repr !! ReprOf(node.right);
    node.SetLeft(l, t);
  }

  method InsertRight(node: AvlNode, k: Entry, v: bool) returns (inserted: bool)
    requires node.Valid() && Avl(node.tree) && Asymmetric(EntryLess)
    modifies node.repr
    ensures node.Valid() && fresh(node.repr - old(node.repr))
    ensures var (r, ins) := AvlShape.InsertNode(EntryLess, old(node.tree).right, k, v);
            inserted == ins && node.tree == UpdateHeight(old(node.tree).(right := r))
    decreases node.tree, 0
  {
    ghost var t := node.tree;
    var r;
    r, inserted := InsertInto(node.right, k, v);
    assert ValidOrNull(node.left) && TreeOf(node.left) == t.left;
    assert node !in r.repr && r.repr !! ReprOf(node.left);
    node.SetRight(r, t);
  }

  /** The case split after a removal below node. */
  method RebalanceRemoved(node: AvlNode) returns (r: AvlNode)
    requires node.Valid() && NearlyAvl(node.tree)
    modifies node.repr
    ensures r.Valid() && r.repr <= old(node.repr)
    ensures r.tree == AvlShape.RebalanceRemoved(old(node.tree))
  {
    var balance := HeightOf(node.left) - HeightOf(node.right);
    if balance > 1 && BalanceOf(node.left) >= 0 {
      r := RotateRight(node);
    } else if balance > 1 && BalanceOf(node.left) < 0 {
      r := DoubleRight(node);
    } else if balance < -1 && BalanceOf(node.right) <= 0 {
      r := RotateLeft(node);
    } else if balance < -1 && BalanceOf(node.right) > 0 {
      r := DoubleLeft(node);
    } else {
      r := node;
    }
  }

  /** getBalance. */
  function BalanceOf(n: AvlNode?): (b: int)
    requires ValidOrNull(n)
    reads n, ReprOf(n)
    ensures b == Balance(TreeOf(n))
  {
    if n == null then 0
    else
      assert ValidOrNull(n.left) && ValidOrNull(n.right);
      HeightOf(n.left) - HeightOf(n.right)
  }

  /** findMin. */
  method FindMin(n: AvlNode) returns (m: AvlNode)
    requires n.Valid()
    ensures m in n.repr && m.Valid() && m.tree == AvlShape.FindMin(n.tree)
  {
    m := n;
    while m.left != null
      invariant m in n.repr && m.Valid() && m.repr <= n.repr
      invariant AvlShape.FindMin(m.tree) == AvlShape.FindMin(n.tree)
      decreases m.tree
    {
      m := m.left;
    }
  }

  /** removeNode. */
  method RemoveFrom(node: AvlNode?, k: Entry) returns (r: AvlNode?, removed: bool)
    requires ValidOrNull(node) && Avl(TreeOf(node))
    modifies ReprOf(node)
    ensures ValidOrNull(r) && ReprOf(r) <= old(ReprOf(node))
    ensures (TreeOf(r), removed) == AvlShape.RemoveNode(EntryLess, old(TreeOf(node)), k)
    decreases TreeOf(node), 2
  {
    if node == null {
      r, removed := node, false;
    } else if EntryLess(k, node.key) {
      removed := RemoveLeft(node, k);
      ShrunkLeft(old(node.tree), node.tree.left);
      r := RebalanceRemoved(node);
    } else if EntryLess(node.key, k) {
      removed := RemoveRight(node, k);
      ShrunkRight(old(node.tree), node.key, node.value, node.tree.right);
      r := RebalanceRemoved(node);
    } else if node.left == null || node.right == null {
      r, removed := if node.left != null then node.left else node.right, true;
    } else {
      removed := RemoveSuccessor(node);
      ShrunkRight(old(node.tree), node.key, node.value, node.tree.right);
      r := RebalanceRemoved(node);
    }
  }

  method RemoveLeft(node: AvlNode, k: Entry) returns (removed: bool)
    requires node.Valid() && Avl(node.tree)
    modifies node.repr
    ensures node.Valid() && node.repr <= old(node.repr)
    ensures var (l, rem) := AvlShape.RemoveNode(EntryLess, old(node.tree).left, k);
            removed == rem && node.tree == UpdateHeight(old(node.tree).(left := l))
    ensures node.key == old(node.key) && node.value == old(node.value)
    decreases node.tree, 0
  {
    ghost var t := node.tree;
    var l;
    l, removed := RemoveFrom(node.left, k);
    assert ValidOrNull(node.right) && TreeOf(node.right) == t.right;
    node.SetLeft(l, t);
  }

  method RemoveRight(node: AvlNode, k: Entry) returns (removed: bool)
    requires node.Valid() && Avl(node.tree.right)
    modifies node.repr
    ensures node.Valid() && node.repr <= old(node.repr)
    ensures var (r, rem) := AvlShape.RemoveNode(EntryLess, old(node.tree).right, k);
            removed == rem && node.tree == UpdateHeight(old(node.tree).(right := r))
    ensures node.key == old(node.key) && node.value == old(node.value)
    decreases node.tree.right, 3
  {
    ghost var t := node.tree;
    var r;
    r, removed := RemoveFrom(node.right, k);
    assert ValidOrNull(node.left) && TreeOf(node.left) == t.left;
    node.SetRight(r, t);
  }

  /** Two children: copy the successor up, then delete it on the right. */
  method RemoveSuccessor(node: AvlNode) returns (removed: bool)
    requires node.Valid() && Avl(node.tree) && node.left != null && node.right != null
    modifies node.repr
    ensures node.Valid() && node.repr <= old(node.repr)
    ensures var m := AvlShape.FindMin(old(node.tree).right);
            var (r, rem) := AvlShape.RemoveNode(EntryLess, old(node.tree).right, m.key);
            && removed == rem && node.key == m.key && node.value == m.value
            && node.tree == UpdateHeight(old(node.tree).(key := m.key, value := m.value, right := r))
    decreases node.tree, 0
  {
    var temp := FindMin(node.right);
    var k := temp.key;
    node.key, node.value := temp.key, temp.value;
    node.tree := node.tree.(key := node.key, value := node.value);
    removed := RemoveRight(node, k);
  }

  // ---------- Queries ----------

  method FindNode(node: AvlNode?, k: Entry) returns (r: AvlNode?)
    requires ValidOrNull(node)
    ensures ValidOrNull(r) && TreeOf(r) == Q.FindNode(EntryLess, TreeOf(node), k)
    decreases TreeOf(node)
  {
    if node == null { r := null; }
    else if EntryLess(k, node.key) { r := FindNode(node.left, k); }
    else if EntryLess(node.key, k) { r := FindNode(node.right, k); }
    else { r := node; }
  }

  /** inorderTraversal: appends to the result vector. */
  method InorderTraversal(node: AvlNode?, result: seq<(Entry, bool)>) returns (r: seq<(Entry, bool)>)
    requires ValidOrNull(node)
    ensures r == result + C.InOrder(TreeOf(node))
    decreases TreeOf(node)
  {
    r := result;
    if node != null {
      r := InorderTraversal(node.left, r);
      r := r + [(node.key, node.value)];
      r := InorderTraversal(node.right, r);
    }
  }

  /** rangeQuery: appends to the result vector. */
  method RangeQuery(node: AvlNode?, lo: Entry, hi: Entry, result: seq<(Entry, bool)>) returns (r: seq<(Entry, bool)>)
    requires ValidOrNull(node)
    ensures r == result + Q.RangeQuery(EntryLess, TreeOf(node), lo, hi)
    decreases TreeOf(node)
  {
    r := result;
    if node != null {
      if !EntryLess(node.key, lo) && !EntryLess(hi, node.key) {
        r := RangeQuery(node.left, lo, hi, r);
        r := r + [(node.key, node.value)];
        r := RangeQuery(node.right, lo, hi, r);
      } else if EntryLess(node.key, lo) {
        r := RangeQuery(node.right, lo, hi, r);
      } else {
        r := RangeQuery(node.left, lo, hi, r);
      }
    }
  }

  method SubtreeSize(node: AvlNode?) returns (n: nat)
    requires ValidOrNull(node)
    ensures n == Q.SubtreeSize(TreeOf(node))
    decreases TreeOf(node)
  {
    if node == null { return 0; }
    var a := SubtreeSize(node.left);
    var b := SubtreeSize(node.right);
    n := 1 + a + b;
  }

  method GetRank(node: AvlNode?, k: Entry) returns (r: int)
    requires ValidOrNull(node)
    ensures r == Q.GetRank(EntryLess, TreeOf(node), k)
    decreases TreeOf(node)
  {
    if node == null {
      r := -1;
    } else if EntryLess(k, node.key) {
      r := GetRank(node.left, k);
    } else if EntryLess(node.key, k) {
      var leftSize := SubtreeSize(node.left);
      var rightRank := GetRank(node.right, k);
      r := if rightRank == -1 then -1 else leftSize + 1 + rightRank;
    } else {
      r := SubtreeSize(node.left);
    }
  }

  // ---------- The tree object ----------

  lemma {:induction false} InsertsEntry(t: Index, k: Entry, v: bool)
    requires C.Valid(EntryLess, t)
    ensures Asymmetric(EntryLess)
    ensures var (t', inserted) := AvlShape.InsertNode(EntryLess, t, k, v);
            && C.Valid(EntryLess, t')
            && C.MapOf(C.InOrder(t')) == C.MapOf(C.InOrder(t))[k := v]
            && (inserted <==> k !in C.MapOf(C.InOrder(t)))
            && |C.InOrder(t')| == |C.InOrder(t)| + if inserted then 1 else 0
  {
    EntryLessStrictTotal();
    C.InsertRefinesUpdate(EntryLess, t, k, v);
  }

  lemma {:induction false} RemovesEntry(t: Index, k: Entry)
    requires C.Valid(EntryLess, t)
    ensures var (t', removed) := AvlShape.RemoveNode(EntryLess, t, k);
            && C.Valid(EntryLess, t')
            && C.MapOf(C.InOrder(t')) == C.MapOf(C.InOrder(t)) - {k}
            && (removed <==> k in C.MapOf(C.InOrder(t)))
            && |C.InOrder(t')| == |C.InOrder(t)| - if removed then 1 else 0
  {
    EntryLessStrictTotal();
    C.RemoveRefinesDelete(EntryLess, t, k);
  }

  class AvlTree {
    var root: AvlNode?
    var size: nat

    /** A balanced search tree whose counter is its number of nodes. */
    ghost predicate Valid()
      reads this, root, ReprOf(root)
    {
      && ValidOrNull(root)
      && C.Valid(EntryLess, TreeOf(root))
      && size == |C.InOrder(TreeOf(root))|
    }

    /** The pairs in key order. */
    ghost function Pairs(): seq<(Entry, bool)>
      reads this, root
    {
      C.InOrder(TreeOf(root))
    }

    /** The map the tree stands for. */
    ghost function Contents(): map<Entry, bool>
      reads this, root
    {
      C.MapOf(Pairs())
    }

    constructor ()
      ensures Valid() && root == null && Contents() == map[]
    {
      root, size := null, 0;
    }

    method InsertAtRoot(k: Entry, v: bool) returns (inserted: bool)
      requires ValidOrNull(root) && Avl(TreeOf(root)) && Asymmetric(EntryLess)
      modifies this`root, ReprOf(root)
      ensures ValidOrNull(root) && fresh(ReprOf(root) - old(ReprOf(root)))
      ensures (TreeOf(root), inserted) == AvlShape.InsertNode(EntryLess, old(TreeOf(root)), k, v)
    {
      var r;
      r, inserted := InsertInto(root, k, v);
      root := r;
    }

    method Insert(k: Entry, v: bool) returns (inserted: bool)
      requires Valid()
      modifies this, ReprOf(root)
      ensures Valid() && fresh(ReprOf(root) - old(ReprOf(root)))
      ensures Contents() == old(Contents())[k := v]
      ensures inserted <==> k !in old(Contents())
      ensures size == old(size) + if inserted then 1 else 0
    {
      InsertsEntry(TreeOf(root), k, v);
      inserted := InsertAtRoot(k, v);
      if inserted { size := size + 1; }
    }

    method RemoveAtRoot(k: Entry) returns (removed: bool)
      requires ValidOrNull(root) && Avl(TreeOf(root))
      modifies this`root, ReprOf(root)
      ensures ValidOrNull(root) && ReprOf(root) <= old(ReprOf(root))
      ensures (TreeOf(root), removed) == AvlShape.RemoveNode(EntryLess, old(TreeOf(root)), k)
    {
      var r;
      r, removed := RemoveFrom(root, k);
      root := r;
    }

    method Remove(k: Entry) returns (removed: bool)
      requires Valid()
      modifies this, ReprOf(root)
      ensures Valid() && ReprOf(root) <= old(ReprOf(root))
      ensures Contents() == old(Contents()) - {k}
      ensures removed <==> k in old(Contents())
      ensures size == old(size) - if removed then 1 else 0
    {
      RemovesEntry(TreeOf(root), k);
      removed := RemoveAtRoot(k);
      if removed { size := size - 1; }
    }

    method Clear()
      modifies this
      ensures Valid() && root == null && Contents() == map[] && size == 0
    {
      root, size := null, 0;
    }

    method Inorder() returns (r: seq<(Entry, bool)>)
      requires Valid()
      ensures r == Pairs()
    {
      r := InorderTraversal(root, []);
    }

    /** The pairs with lo <= key <= hi, in key order. */
    method Range(lo: Entry, hi: Entry) returns (r: seq<(Entry, bool)>)
      requires Valid()
      ensures r == Q.Between(EntryLess, Pairs(), lo, hi)
    {
      EntryLessStrictTotal();
      Q.RangeQueryIsFilter(EntryLess, TreeOf(root), lo, hi);
      r := RangeQuery(root, lo, hi, []);
    }

    /** The index of k in key order, -1 exactly when it is absent. */
    method Rank(k: Entry) returns (r: int)
      requires Valid()
      ensures r == -1 <==> k !in Contents()
      ensures r != -1 ==> 0 <= r < |Pairs()| && Pairs()[r].0 == k
    {
      EntryLessStrictTotal();
      Q.RankIsIndex(EntryLess, TreeOf(root), k);
      C.MapKeys(Pairs(), k);
      r := GetRank(root, k);
    }

    /** The height of the tree, which its size bounds: 2^h <= (n + 1)^2. */
    method Height() returns (h: nat)
      requires Valid()
      ensures h == TrueHeight(TreeOf(root))
      ensures Q.Pow2(h) <= Q.Square(size + 1)
    {
      h := HeightOf(root);
      StoredHeightIsTrue(TreeOf(root));
      Q.HeightIsLogarithmic(TreeOf(root));
    }

    method Contains(k: Entry) returns (b: bool)
      requires Valid()
      ensures b <==> k in Contents()
    {
      EntryLessStrictTotal();
      Q.FindNodeIsLookup(EntryLess, TreeOf(root), k);
      C.MapKeys(Pairs(), k);
      var n := FindNode(root, k);
      b := n != null;
      assert b <==> TreeOf(n).Node?;
    }
  }
}
