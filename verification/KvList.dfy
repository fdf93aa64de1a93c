/** wow_kv_list.c in place: nodes that are rotated, filled and unlinked where they are. */
module KvList {
  import opened KvTree

  class AvlNode {
    var key: Text
    var value: Text
    var height: int
    var left: AvlNode?
    var right: AvlNode?

    constructor (key: Text, value: Text)
      ensures this.key == key && this.value == value && height == 1 && left == null && right == null
    {
      this.key, this.value, height, left, right := key, value, 1, null, null;
    }
  }

  // ---------------------------------------------------------------- which nodes form the tree

  /** The node objects of a tree, in their places; `all` are the nodes of the whole subtree. */
  datatype Shape = Nil | Cell(left: Shape, node: AvlNode, right: Shape, all: set<AvlNode>)

  function Root(s: Shape): AvlNode? {
    if s.Nil? then null else s.node
  }

  ghost function Nodes(s: Shape): set<AvlNode> {
    if s.Nil? then {} else s.all
  }

  ghost function Join(left: Shape, node: AvlNode, right: Shape): Shape {
    Cell(left, node, right, Nodes(left) + {node} + Nodes(right))
  }

  /** No node is in two places. */
  ghost predicate Distinct(s: Shape) {
    s.Cell? ==>
      && Distinct(s.left) && Distinct(s.right) && s.node !in Nodes(s.left) && s.node !in Nodes(s.right)
      && Nodes(s.left) !! Nodes(s.right) && s.all == Nodes(s.left) + {s.node} + Nodes(s.right)
  }

  /** The fields of these nodes hold this tree. */
  ghost predicate Holds(s: Shape, t: Tree)
    requires Distinct(s)
    reads Nodes(s)
    decreases s
  {
    if s.Nil? then t.Leaf?
    else
      && t.Node? && s.node.key == t.key && s.node.value == t.value && s.node.height == t.height
      && s.node.left == Root(s.left) && s.node.right == Root(s.right) && Holds(s.left, t.left) && Holds(s.right, t.right)
  }

  // ---------------------------------------------------------------- heights and rotations

  function HeightOf(n: AvlNode?): int
    reads n
  {
    if n == null then 0 else n.height
  }

  function BalanceOf(n: AvlNode?): int
    reads n, if n == null then {} else {n.left, n.right}
  {
    if n == null then 0 else HeightOf(n.left) - HeightOf(n.right)
  }

  lemma HeightHolds(s: Shape, t: Tree)
    requires Distinct(s) && Holds(s, t)
    ensures HeightOf(Root(s)) == Height(t) && BalanceOf(Root(s)) == Balance(t)
  {
    if s.Cell? {
      assert Holds(s.left, t.left) && Holds(s.right, t.right);
    }
  }

  /** Recomputes a node's height from its children. */
  method Refresh(n: AvlNode, ghost s: Shape, ghost t: Tree)
    requires s.Cell? && n == s.node && Distinct(s) && Holds(s, t)
    modifies n`height
    ensures Holds(s, WithHeight(t))
  {
    HeightHolds(s.left, t.left);
    HeightHolds(s.right, t.right);
    n.height := (if HeightOf(n.left) > HeightOf(n.right) then HeightOf(n.left) else HeightOf(n.right)) + 1;
  }

  lemma Members(s: Shape)
    requires Distinct(s) && s.Cell?
    ensures s.node in Nodes(s) && Nodes(s.left) <= Nodes(s) && Nodes(s.right) <= Nodes(s)
    ensures Distinct(s.left) && Distinct(s.right) && s.node !in Nodes(s.left) && s.node !in Nodes(s.right)
    ensures Nodes(s.left) !! Nodes(s.right)
  {
  }

  lemma BalancedParts(t: Tree)
    requires Balanced(t) && t.Node?
    ensures Balanced(t.left) && Balanced(t.right)
  {
  }

  /** The node itself holds the root of the tree. */
  ghost predicate RootHolds(n: AvlNode, t: Tree)
    reads n
  {
    t.Node? && n.key == t.key && n.value == t.value && n.height == t.height
  }

  /** Hangs another subtree under a node, on the left. */
  method SetLeft(n: AvlNode, child: AvlNode?, ghost t: Tree, ghost low: Shape, ghost lowTree: Tree, ghost right: Shape)
    requires RootHolds(n, t) && child == Root(low) && n.right == Root(right)
    requires Distinct(low) && Holds(low, lowTree) && Distinct(right) && Holds(right, t.right)
    requires n !in Nodes(low) && n !in Nodes(right) && Nodes(low) !! Nodes(right)
    modifies n`left
    ensures Distinct(Join(low, n, right)) && Holds(Join(low, n, right), t.(left := lowTree))
  {
    n.left := child;
  }

  method SetRight(n: AvlNode, child: AvlNode?, ghost t: Tree, ghost left: Shape, ghost low: Shape, ghost lowTree: Tree)
    requires RootHolds(n, t) && child == Root(low) && n.left == Root(left)
    requires Distinct(low) && Holds(low, lowTree) && Distinct(left) && Holds(left, t.left)
    requires n !in Nodes(low) && n !in Nodes(left) && Nodes(low) !! Nodes(left)
    modifies n`right
    ensures Distinct(Join(left, n, low)) && Holds(Join(left, n, low), t.(right := lowTree))
  {
    n.right := child;
  }

  method RotateRightAt(y: AvlNode, ghost s: Shape, ghost t: Tree) returns (x: AvlNode, ghost s': Shape)
    requires s.Cell? && s.left.Cell? && y == s.node && t.Node? && t.left.Node? && Distinct(s) && Holds(s, t)
    modifies y, s.left.node
    ensures Distinct(s') && Holds(s', RotateRight(t)) && Nodes(s') == Nodes(s) && x == Root(s')
  {
    ghost var a, b, c := s.left.left, s.left.right, s.right;
    assert Distinct(s.left) && Holds(s.left, t.left);
    assert Holds(a, t.left.left) && Holds(b, t.left.right) && Holds(c, t.right);
    x := y.left;
    var t2 := x.right;
    x.right := y;
    y.left := t2;
    assert Holds(a, t.left.left) && Holds(b, t.left.right) && Holds(c, t.right);
    ghost var low := Join(b, y, c);
    s' := Join(a, x, low);
    Refresh(y, low, t.(left := t.left.right));
    Refresh(x, s', t.left.(right := WithHeight(t.(left := t.left.right))));
  }

  method RotateLeftAt(x: AvlNode, ghost s: Shape, ghost t: Tree) returns (y: AvlNode, ghost s': Shape)
    requires s.Cell? && s.right.Cell? && x == s.node && t.Node? && t.right.Node? && Distinct(s) && Holds(s, t)
    modifies x, s.right.node
    ensures Distinct(s') && Holds(s', RotateLeft(t)) && Nodes(s') == Nodes(s) && y == Root(s')
  {
    ghost var a, b, c := s.left, s.right.left, s.right.right;
    assert Distinct(s.right) && Holds(s.right, t.right);
    assert Holds(a, t.left) && Holds(b, t.right.left) && Holds(c, t.right.right);
    y := x.right;
    var t2 := y.left;
    y.left := x;
    x.right := t2;
    assert Holds(a, t.left) && Holds(b, t.right.left) && Holds(c, t.right.right);
    ghost var low := Join(a, x, b);
    s' := Join(low, y, c);
    Refresh(x, low, t.(right := t.right.left));
    Refresh(y, s', t.right.(left := WithHeight(t.(right := t.right.left))));
  }

  // ---------------------------------------------------------------- insertion

  /** The end of avl_insert: height and rotations. */
  method FixInsertAt(node: AvlNode, key: Text, ghost s: Shape, ghost t: Tree) returns (r: AvlNode, ghost s': Shape)
    requires s.Cell? && node == s.node && Distinct(s) && Holds(s, t) && Grown(t, key)
    modifies Nodes(s)
    ensures Distinct(s') && Holds(s', FixInsert(t, key)) && Nodes(s') == Nodes(s) && r == Root(s')
  {
    hide RotateLeft, RotateRight, WithHeight, Compare, Balanced;
    Refresh(node, s, t);
    ghost var n := WithHeight(t);
    HeightedIs(t);
    HeightHolds(s, n);
    var balance := BalanceOf(node);
    Opened(s, n);
    s' := s;
    if balance > 1 && Compare(key, node.left.key) < 0 {
      r, s' := RotateRightAt(node, s, n);
    } else if balance < -1 && Compare(key, node.right.key) > 0 {
      r, s' := RotateLeftAt(node, s, n);
    } else if balance > 1 && Compare(key, node.left.key) > 0 {
      DoubleRight(n);
      r, s' := DoubleRightAt(node, s, n);
    } else if balance < -1 && Compare(key, node.right.key) < 0 {
      DoubleLeft(n);
      r, s' := DoubleLeftAt(node, s, n);
    } else {
      r := node;
    }
  }

  lemma HeightedIs(t: Tree)
    requires t.Node?
    ensures WithHeight(t).Node? && WithHeight(t) == t.(height := WithHeight(t).height)
  {
  }

  /** The children of a node hold the children of its tree. */
  lemma Opened(s: Shape, t: Tree)
    requires s.Cell? && Distinct(s) && Holds(s, t)
    ensures RootHolds(s.node, t) && s.node.left == Root(s.left) && s.node.right == Root(s.right)
    ensures Distinct(s.left) && Distinct(s.right) && Holds(s.left, t.left) && Holds(s.right, t.right)
    ensures s.left.Cell? <==> t.left.Node?
    ensures s.right.Cell? <==> t.right.Node?
    ensures s.left.Cell? ==> s.left.node.key == t.left.key && s.node.left == s.left.node
    ensures s.right.Cell? ==> s.right.node.key == t.right.key && s.node.right == s.right.node
  {
    assert Holds(s.left, t.left) && Holds(s.right, t.right);
  }

  method DoubleRightAt(node: AvlNode, ghost s: Shape, ghost t: Tree) returns (r: AvlNode, ghost s': Shape)
    requires s.Cell? && node == s.node && t.Node? && t.left.Node? && t.left.right.Node? && Distinct(s) && Holds(s, t)
    modifies Nodes(s)
    ensures Distinct(s') && Holds(s', RotateRight(t.(left := RotateLeft(t.left)))) && Nodes(s') == Nodes(s) && r == Root(s')
  {
    hide RotateLeft, RotateRight;
    Opened(s, t);
    Opened(s.left, t.left);
    Members(s);
    Members(s.left);
    Members(s.left.right);
    RotationIsNode(t.left);
    var child, low := RotateLeftAt(node.left, s.left, t.left);
    Opened(low, RotateLeft(t.left));
    Members(low);
    SetLeft(node, child, t, low, RotateLeft(t.left), s.right);
    r, s' := RotateRightAt(node, Join(low, node, s.right), t.(left := RotateLeft(t.left)));
  }

  method DoubleLeftAt(node: AvlNode, ghost s: Shape, ghost t: Tree) returns (r: AvlNode, ghost s': Shape)
    requires s.Cell? && node == s.node && t.Node? && t.right.Node? && t.right.left.Node? && Distinct(s) && Holds(s, t)
    modifies Nodes(s)
    ensures Distinct(s') && Holds(s', RotateLeft(t.(right := RotateRight(t.right)))) && Nodes(s') == Nodes(s) && r == Root(s')
  {
    hide RotateLeft, RotateRight;
    Opened(s, t);
    Opened(s.right, t.right);
    Members(s);
    Members(s.right);
    Members(s.right.left);
    RotationIsNode(t.right);
    var child, low := RotateRightAt(node.right, s.right, t.right);
    Opened(low, RotateRight(t.right));
    Members(low);
    SetRight(node, child, t, s.left, low, RotateRight(t.right));
    r, s' := RotateLeftAt(node, Join(s.left, node, low), t.(right := RotateRight(t.right)));
  }

  /** avl_insert. */
  method InsertAt(node: AvlNode?, key: Text, value: Text, ghost s: Shape, ghost t: Tree) returns (r: AvlNode, ghost s': Shape)
    requires node == Root(s) && Distinct(s) && Holds(s, t) && Balanced(t)
    modifies Nodes(s)
    ensures Distinct(s') && Holds(s', Insert(t, key, value)) && r == Root(s') && fresh(Nodes(s') - Nodes(s))
    decreases t
  {
    hide FixInsert, Grown, Compare, Balanced, Insert;
    ghost var whole := Insert(t, key, value);
    InsertIs(s, t, key, value);
    if node == null {
      r := new AvlNode(key, value);
      s' := Join(Nil, r, Nil);
      return;
    }
    hide Distinct, Holds;
    Opened(s, t);
    Members(s);
    BalancedParts(t);
    var order := Compare(key, node.key);
    if order < 0 {
      var child, low := InsertAt(node.left, key, value, s.left, t.left);
      SetLeft(node, child, t, low, Insert(t.left, key, value), s.right);
      r, s' := FixInsertAt(node, key, Join(low, node, s.right), t.(left := Insert(t.left, key, value)));
    } else if order > 0 {
      var child, low := InsertAt(node.right, key, value, s.right, t.right);
      SetRight(node, child, t, s.left, low, Insert(t.right, key, value));
      r, s' := FixInsertAt(node, key, Join(s.left, node, low), t.(right := Insert(t.right, key, value)));
    } else {
      node.value := value;
      r, s' := node, s;
      Reopened(s, t.(value := value));
    }
  }

  lemma InsertIs(s: Shape, t: Tree, key: Text, value: Text)
    requires Distinct(s) && Holds(s, t) && Balanced(t)
    ensures s.Nil? ==> Insert(t, key, value) == Node(Leaf, key, value, 1, Leaf)
    ensures s.Cell? ==> t.Node? && Balanced(t.left) && Balanced(t.right)
    ensures s.Cell? && Compare(key, t.key) < 0 ==>
              var n := t.(left := Insert(t.left, key, value)); Grown(n, key) && Insert(t, key, value) == FixInsert(n, key)
    ensures s.Cell? && Compare(key, t.key) > 0 ==>
              var n := t.(right := Insert(t.right, key, value)); Grown(n, key) && Insert(t, key, value) == FixInsert(n, key)
    ensures s.Cell? && Compare(key, t.key) == 0 ==> Insert(t, key, value) == t.(value := value)
  {
    hide Compare, FixInsert, Grown;
    var whole := Insert(t, key, value);
  }

  lemma Reopened(s: Shape, t: Tree)
    requires Distinct(s) && s.Cell? && RootHolds(s.node, t) && s.node.left == Root(s.left) && s.node.right == Root(s.right)
    requires Distinct(s.left) && Distinct(s.right) && Holds(s.left, t.left) && Holds(s.right, t.right)
    ensures Holds(s, t)
  {
  }

  // ---------------------------------------------------------------- deletion and update

  /** The end of avl_delete and of avl_update: height and rotations. */
  method RebalanceAt(node: AvlNode, ghost s: Shape, ghost t: Tree) returns (r: AvlNode, ghost s': Shape)
    requires s.Cell? && node == s.node && Distinct(s) && Holds(s, t)
    requires t.Node? && Balanced(t.left) && Balanced(t.right) && -2 <= Balance(t) <= 2
    modifies Nodes(s)
    ensures Distinct(s') && Holds(s', Rebalance(t)) && Nodes(s') == Nodes(s) && r == Root(s')
  {
    hide RotateLeft, RotateRight, WithHeight, Balanced;
    Refresh(node, s, t);
    ghost var n := WithHeight(t);
    HeightedIs(t);
    HeightHolds(s, n);
    Opened(s, n);
    HeightHolds(s.left, n.left);
    HeightHolds(s.right, n.right);
    var balance := BalanceOf(node);
    s' := s;
    if balance > 1 && BalanceOf(node.left) >= 0 {
      SingleRight(n);
      r, s' := RotateRightAt(node, s, n);
    } else if balance > 1 && BalanceOf(node.left) < 0 {
      DoubleRight(n);
      r, s' := DoubleRightAt(node, s, n);
    } else if balance < -1 && BalanceOf(node.right) <= 0 {
      SingleLeft(n);
      r, s' := RotateLeftAt(node, s, n);
    } else if balance < -1 && BalanceOf(node.right) > 0 {
      DoubleLeft(n);
      r, s' := DoubleLeftAt(node, s, n);
    } else {
      r := node;
    }
  }

  /** avl_get_min. */
  method GetMin(node: AvlNode, ghost s: Shape, ghost t: Tree) returns (m: AvlNode)
    requires s.Cell? && node == s.node && Distinct(s) && Holds(s, t)
    ensures Pair(m.key, m.value) == Min(t)
  {
    m := node;
    ghost var u, v := s, t;
    while m.left != null
      invariant u.Cell? && m == u.node && Distinct(u) && Holds(u, v) && Min(v) == Min(t)
      decreases u
    {
      Opened(u, v);
      m := m.left;
      u, v := u.left, v.left;
    }
    Opened(u, v);
  }

  /** avl_delete. */
  method DeleteAt(node: AvlNode?, key: Text, ghost s: Shape, ghost t: Tree) returns (r: AvlNode?, ghost s': Shape)
    requires node == Root(s) && Distinct(s) && Holds(s, t) && Balanced(t)
    modifies Nodes(s)
    ensures Distinct(s') && Holds(s', Delete(t, key)) && r == Root(s') && Nodes(s') <= Nodes(s)
    decreases t, 1
  {
    hide Rebalance, Compare, Balanced, Delete, Min, Balance;
    DeleteIs(s, t, key);
    if node == null { return null, s; }
    hide Distinct, Holds;
    Opened(s, t);
    Members(s);
    var order := Compare(key, node.key);
    if order < 0 {
      var child, low := DeleteAt(node.left, key, s.left, t.left);
      SetLeft(node, child, t, low, Delete(t.left, key), s.right);
      r, s' := RebalanceAt(node, Join(low, node, s.right), t.(left := Delete(t.left, key)));
    } else if order > 0 {
      var child, low := DeleteAt(node.right, key, s.right, t.right);
      SetRight(node, child, t, s.left, low, Delete(t.right, key));
      r, s' := RebalanceAt(node, Join(s.left, node, low), t.(right := Delete(t.right, key)));
    } else if node.left == null {
      r, s' := node.right, s.right;
    } else if node.right == null {
      r, s' := node.left, s.left;
    } else {
      CompareEqual(key, t.key);
      r, s' := TakeSuccessor(node, s, t);
    }
  }

  /** The node with two children takes over the next pair, which is deleted from its right subtree. */
  method TakeSuccessor(node: AvlNode, ghost s: Shape, ghost t: Tree) returns (r: AvlNode?, ghost s': Shape)
    requires s.Cell? && node == s.node && Distinct(s) && Holds(s, t) && Balanced(t) && t.Node? && t.left.Node? && t.right.Node?
    modifies Nodes(s)
    ensures Distinct(s') && Holds(s', Delete(t, t.key)) && r == Root(s') && Nodes(s') <= Nodes(s)
    decreases t, 0
  {
    hide Rebalance, Compare, Balanced, Delete, Min, Balance, Distinct, Holds;
    CompareSelf(t.key);
    DeleteIs(s, t, t.key);
    Opened(s, t);
    Members(s);
    var temp := GetMin(node.right, s.right, t.right);
    node.key := temp.key;
    node.value := temp.value;
    ghost var u := t.(key := Min(t.right).key, value := Min(t.right).value);
    var child, low := DeleteAt(node.right, temp.key, s.right, t.right);
    SetRight(node, child, u, s.left, low, Delete(t.right, u.key));
    r, s' := RebalanceAt(node, Join(s.left, node, low), u.(right := Delete(t.right, u.key)));
  }

  lemma CompareSelf(key: Text)
    ensures Compare(key, key) == 0
  {
    CompareEqual(key, key);
  }

  lemma DeleteIs(s: Shape, t: Tree, key: Text)
    requires Distinct(s) && Holds(s, t) && Balanced(t)
    ensures s.Nil? ==> Delete(t, key) == t
    ensures s.Cell? ==> t.Node? && Balanced(t.left) && Balanced(t.right)
    ensures s.Cell? && Compare(key, t.key) < 0 ==>
              var n := t.(left := Delete(t.left, key));
              Balanced(n.left) && -2 <= Balance(n) <= 2 && Delete(t, key) == Rebalance(n)
    ensures s.Cell? && Compare(key, t.key) > 0 ==>
              var n := t.(right := Delete(t.right, key));
              Balanced(n.right) && -2 <= Balance(n) <= 2 && Delete(t, key) == Rebalance(n)
    ensures s.Cell? && Compare(key, t.key) == 0 && t.left.Leaf? ==> Delete(t, key) == t.right
    ensures s.Cell? && Compare(key, t.key) == 0 && t.left.Node? && t.right.Leaf? ==> Delete(t, key) == t.left
    ensures s.Cell? && Compare(key, t.key) == 0 && t.left.Node? && t.right.Node? ==>
              var m := Min(t.right);
              var n := t.(key := m.key, value := m.value, right := Delete(t.right, m.key));
              Balanced(n.right) && -2 <= Balance(n) <= 2 && Delete(t, key) == Rebalance(n)
  {
    hide Compare, Rebalance, Min;
  }

  /** avl_update. */
  method UpdateAt(node: AvlNode?, key: Text, value: Text, ghost s: Shape, ghost t: Tree) returns (r: AvlNode?, ghost s': Shape)
    requires node == Root(s) && Distinct(s) && Holds(s, t) && Balanced(t)
    modifies Nodes(s)
    ensures Distinct(s') && Holds(s', Update(t, key, value)) && r == Root(s') && Nodes(s') == Nodes(s)
    decreases t
  {
    hide Rebalance, Compare, Balanced, Update, Balance;
    UpdateIs(s, t, key, value);
    if node == null { return null, s; }
    hide Distinct, Holds;
    Opened(s, t);
    Members(s);
    JoinParts(s);
    var order := Compare(key, node.key);
    if order < 0 {
      var child, low := UpdateAt(node.left, key, value, s.left, t.left);
      SetLeft(node, child, t, low, Update(t.left, key, value), s.right);
      r, s' := RebalanceAt(node, Join(low, node, s.right), t.(left := Update(t.left, key, value)));
    } else if order > 0 {
      var child, low := UpdateAt(node.right, key, value, s.right, t.right);
      SetRight(node, child, t, s.left, low, Update(t.right, key, value));
      r, s' := RebalanceAt(node, Join(s.left, node, low), t.(right := Update(t.right, key, value)));
    } else {
      node.value := value;
      Reopened(s, t.(value := value));
      r, s' := RebalanceAt(node, s, t.(value := value));
    }
  }

  lemma JoinParts(s: Shape)
    requires Distinct(s) && s.Cell?
    ensures Nodes(s) == Nodes(s.left) + {s.node} + Nodes(s.right)
  {
  }

  lemma UpdateIs(s: Shape, t: Tree, key: Text, value: Text)
    requires Distinct(s) && Holds(s, t) && Balanced(t)
    ensures s.Nil? ==> Update(t, key, value) == t
    ensures s.Cell? ==> t.Node? && Balanced(t.left) && Balanced(t.right)
    ensures s.Cell? ==>
              var n := if Compare(key, t.key) < 0 then t.(left := Update(t.left, key, value))
                       else if Compare(key, t.key) > 0 then t.(right := Update(t.right, key, value)) else t.(value := value);
              Balanced(n.left) && Balanced(n.right) && -2 <= Balance(n) <= 2 && Update(t, key, value) == Rebalance(n)
  {
    hide Compare, Rebalance;
  }

  // ---------------------------------------------------------------- reading

  /** avl_search; null is None. */
  method SearchAt(node: AvlNode?, key: Text, ghost s: Shape, ghost t: Tree) returns (value: Option<Text>)
    requires node == Root(s) && Distinct(s) && Holds(s, t)
    ensures value == Search(t, key)
    decreases t
  {
    if node == null { return None; }
    Opened(s, t);
    if Compare(key, node.key) < 0 {
      value := SearchAt(node.left, key, s.left, t.left);
    } else if Compare(key, node.key) > 0 {
      value := SearchAt(node.right, key, s.right, t.right);
    } else {
      value := Some(node.value);
    }
  }

  /** avl_get_size. */
  method SizeAt(node: AvlNode?, ghost s: Shape, ghost t: Tree) returns (n: nat)
    requires node == Root(s) && Distinct(s) && Holds(s, t)
    ensures n == Size(t)
    decreases t
  {
    if node == null { return 0; }
    Opened(s, t);
    var l := SizeAt(node.left, s.left, t.left);
    var r := SizeAt(node.right, s.right, t.right);
    n := l + r + 1;
  }

  function KeysOf(s: seq<Pair>): (r: seq<Text>)
    ensures |r| == |s| && forall i :: 0 <= i < |s| ==> r[i] == s[i].key
  {
    seq(|s|, i requires 0 <= i < |s| => s[i].key)
  }

  function ValuesOf(s: seq<Pair>): (r: seq<Text>)
    ensures |r| == |s| && forall i :: 0 <= i < |s| ==> r[i] == s[i].value
  {
    seq(|s|, i requires 0 <= i < |s| => s[i].value)
  }

  /** avl_get_all: appends keys and values to the caller's arrays, which have to be long enough. */
  method GetAll(node: AvlNode?, keys: array<Text>, values: array<Text>, count: nat, ghost s: Shape, ghost t: Tree) returns (count': nat)
    requires node == Root(s) && Distinct(s) && Holds(s, t)
    requires keys != values && count + Size(t) <= keys.Length && count + Size(t) <= values.Length
    modifies keys, values
    ensures count' == count + Size(t)
    ensures keys[..count'] == old(keys[..count]) + KeysOf(InOrder(t))
    ensures values[..count'] == old(values[..count]) + ValuesOf(InOrder(t))
    decreases t
  {
    hide Distinct, Holds, KeysOf, ValuesOf, InOrder, Size;
    ShapeIsNil(s, t);
    Columns(old(keys[..count]), old(values[..count]), t);
    if node == null { return count; }
    Opened(s, t);
    ghost var objects: set<object> := Nodes(s.right);
    assert keys !in objects && values !in objects;
    count' := GetAll(node.left, keys, values, count, s.left, t.left);
    StorePair(keys, values, count', node.key, node.value);
    count' := GetAll(node.right, keys, values, count' + 1, s.right, t.right);
  }

  /** The columns of a tree's listing, behind what is in the arrays already. */
  lemma Columns(k: seq<Text>, v: seq<Text>, t: Tree)
    ensures t.Leaf? ==> k + KeysOf(InOrder(t)) == k && v + ValuesOf(InOrder(t)) == v && Size(t) == 0
    ensures t.Node? ==> Size(t) == Size(t.left) + 1 + Size(t.right)
    ensures t.Node? ==> k + KeysOf(InOrder(t)) == k + KeysOf(InOrder(t.left)) + [t.key] + KeysOf(InOrder(t.right))
    ensures t.Node? ==> v + ValuesOf(InOrder(t)) == v + ValuesOf(InOrder(t.left)) + [t.value] + ValuesOf(InOrder(t.right))
  {
    if t.Node? {
      hide KeysOf, ValuesOf;
      JoinedColumns(InOrder(t.left), Pair(t.key, t.value), InOrder(t.right));
      Behind(k, KeysOf(InOrder(t.left)), t.key, KeysOf(InOrder(t.right)));
      Behind(v, ValuesOf(InOrder(t.left)), t.value, ValuesOf(InOrder(t.right)));
    }
  }

  lemma JoinedColumns(left: seq<Pair>, p: Pair, right: seq<Pair>)
    ensures KeysOf(left + [p] + right) == KeysOf(left) + [p.key] + KeysOf(right)
    ensures ValuesOf(left + [p] + right) == ValuesOf(left) + [p.value] + ValuesOf(right)
  {
  }

  lemma Behind(s: seq<Text>, left: seq<Text>, x: Text, right: seq<Text>)
    ensures s + (left + [x] + right) == s + left + [x] + right
  {
  }

  method StorePair(keys: array<Text>, values: array<Text>, at: nat, key: Text, value: Text)
    requires keys != values && at < keys.Length && at < values.Length
    modifies keys, values
    ensures keys[..at + 1] == old(keys[..at]) + [key] && values[..at + 1] == old(values[..at]) + [value]
  {
    keys[at] := key;
    values[at] := value;
  }

  lemma ShapeIsNil(s: Shape, t: Tree)
    requires Distinct(s) && Holds(s, t)
    ensures s.Nil? <==> t.Leaf?
    ensures Root(s) == null <==> s.Nil?
    ensures InOrder(Leaf) == [] && KeysOf([]) == [] == ValuesOf([])
  {
  }

  // ---------------------------------------------------------------- the list

  /** struct kv_list_t: the root pointer. */
  class List {
    var root: AvlNode?
    ghost var shape: Shape
    ghost var tree: Tree

    /** The pairs, by ascending key. */
    ghost function Pairs(): seq<Pair>
      reads this
    {
      InOrder(tree)
    }

    ghost predicate Valid()
      reads this, Nodes(shape)
    {
      && root == Root(shape) && Distinct(shape) && Holds(shape, tree)
      && Balanced(tree) && Ascending(Pairs())
    }

    constructor ()
      ensures Valid() && Pairs() == [] && fresh(Nodes(shape))
    {
      root, shape, tree := null, Nil, Leaf;
    }

    /** wow_kvlist_set. */
    method Set(key: Text, value: Text)
      requires Valid()
      modifies this, Nodes(shape)
      ensures Valid() && Pairs() == Put(old(Pairs()), key, value) && fresh(Nodes(shape) - old(Nodes(shape)))
    {
      hide Insert, Put, InOrder, Ascending;
      InsertPuts(tree, key, value);
      PutLaws(Pairs(), key, value, key);
      var r, s := InsertAt(root, key, value, shape, tree);
      root, shape, tree := r, s, Insert(tree, key, value);
    }

    /** wow_kvlist_get. */
    method Get(key: Text) returns (value: Option<Text>)
      requires Valid()
      ensures value == KvTree.Get(Pairs(), key)
    {
      SearchGets(tree, key);
      value := SearchAt(root, key, shape, tree);
    }

    /** wow_kvlist_delete. */
    method Remove(key: Text)
      requires Valid()
      modifies this, Nodes(shape)
      ensures Valid() && Pairs() == KvTree.Remove(old(Pairs()), key) && Nodes(shape) <= old(Nodes(shape))
    {
      hide Delete, KvTree.Remove, InOrder, Ascending;
      DeleteRemoves(tree, key);
      RemoveLaws(Pairs(), key, key);
      var r, s := DeleteAt(root, key, shape, tree);
      root, shape, tree := r, s, Delete(tree, key);
    }

    /** wow_kvlist_update. */
    method Update(key: Text, value: Text)
      requires Valid()
      modifies this, Nodes(shape)
      ensures Valid() && Pairs() == Replace(old(Pairs()), key, value) && Nodes(shape) == old(Nodes(shape))
    {
      hide KvTree.Update, Replace, InOrder, Ascending;
      UpdateReplaces(tree, key, value);
      ReplaceAscending(Pairs(), key, value);
      var r, s := UpdateAt(root, key, value, shape, tree);
      root, shape, tree := r, s, KvTree.Update(tree, key, value);
    }

    /** wow_kvlist_size. */
    method Count() returns (n: nat)
      requires Valid()
      ensures n == |Pairs()|
    {
      n := SizeAt(root, shape, tree);
    }

    /** wow_kvlist_foreach: lists all pairs by ascending key. */
    method ForEach(keys: array<Text>, values: array<Text>) returns (count: nat)
      requires Valid() && keys != values && |Pairs()| <= keys.Length && |Pairs()| <= values.Length
      modifies keys, values
      ensures count == |Pairs()| && keys[..count] == KeysOf(Pairs()) && values[..count] == ValuesOf(Pairs())
      ensures forall i, j :: 0 <= i < j < count ==> Precedes(keys[i], keys[j])
    {
      hide Precedes;
      count := GetAll(root, keys, values, 0, shape, tree);
      assert old(keys[..0]) == [] && old(values[..0]) == [];
      ListedInOrder(Pairs());
      assert forall i :: 0 <= i < count ==> keys[i] == keys[..count][i];
    }
  }

  /** Listed keys are in the order of strcmp. */
  lemma ListedInOrder(s: seq<Pair>)
    requires Ascending(s)
    ensures forall i, j :: 0 <= i < j < |s| ==> Precedes(KeysOf(s)[i], KeysOf(s)[j])
  {
    hide Precedes;
    forall i, j | 0 <= i < j < |s| ensures Precedes(KeysOf(s)[i], KeysOf(s)[j]) { LessIsPrecedes(s[i].key, s[j].key); }
  }
}
