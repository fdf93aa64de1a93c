/** The AVL tree of wow_kv_list.c as a value: what its in-place operations do, and that they keep order, heights and balance. */
module KvTree {
  type Text = seq<bv8>

  datatype Option<T> = None | Some(value: T)

  datatype Pair = Pair(key: Text, value: Text)

  datatype Tree = Leaf | Node(left: Tree, key: Text, value: Text, height: int, right: Tree)

  // ---------------------------------------------------------------- strcmp

  /** Unsigned bytes from left to right; a proper prefix comes first. */
  function Compare(a: Text, b: Text): int {
    if a == [] then (if b == [] then 0 else -1)
    else if b == [] then 1
    else if a[0] < b[0] then -1 else if a[0] > b[0] then 1 else Compare(a[1..], b[1..])
  }

  predicate Less(a: Text, b: Text) { Compare(a, b) < 0 }

  lemma {:induction false} CompareEqual(a: Text, b: Text)
    ensures Compare(a, b) == 0 <==> a == b
    ensures Compare(a, b) > 0 <==> Compare(b, a) < 0
  {
    if a != [] && b != [] {
      CompareEqual(a[1..], b[1..]);
      assert a == [a[0]] + a[1..] && b == [b[0]] + b[1..];
    }
  }

  /** The order of strcmp, by the first place where the keys differ: an unsigned byte that is smaller, or the end of the key. */
  predicate Precedes(a: Text, b: Text) {
    || (|a| < |b| && a == b[..|a|])
    || exists i :: 0 <= i < |a| && i < |b| && a[..i] == b[..i] && a[i] < b[i]
  }

  lemma {:induction false} LessIsPrecedes(a: Text, b: Text)
    ensures Less(a, b) <==> Precedes(a, b)
  {
    if a != [] && b != [] && a[0] == b[0] {
      var u, v := a[1..], b[1..];
      LessIsPrecedes(u, v);
      assert a == [a[0]] + u && b == [b[0]] + v;
      if Precedes(u, v) { PrecedesLonger(u, v, a[0]); }
      if Precedes(a, b) { PrecedesShorter(a, b); }
    } else if a != [] && b != [] {
      if a[0] < b[0] { assert a[..0] == b[..0]; } else { FirstIsGreater(a, b); }
    } else if a == [] && b != [] {
      assert b[..0] == [];
    }
  }

  lemma FirstIsGreater(a: Text, b: Text)
    requires a != [] && b != [] && a[0] > b[0]
    ensures !Precedes(a, b)
  {
    if |a| < |b| { assert b[..|a|][0] == b[0]; }
    forall i | 0 <= i < |a| && i < |b| ensures a[..i] != b[..i] || a[i] >= b[i] {
      if i > 0 { assert a[..i][0] == a[0] && b[..i][0] == b[0]; }
    }
  }

  lemma PrecedesLonger(u: Text, v: Text, x: bv8)
    requires Precedes(u, v)
    ensures Precedes([x] + u, [x] + v)
  {
    var a, b := [x] + u, [x] + v;
    if |u| < |v| && u == v[..|u|] {
      assert b[..|a|] == [x] + v[..|u|];
    } else {
      var i :| 0 <= i < |u| && i < |v| && u[..i] == v[..i] && u[i] < v[i];
      assert a[..i + 1] == [x] + u[..i] && b[..i + 1] == [x] + v[..i] && a[i + 1] < b[i + 1];
    }
  }

  lemma PrecedesShorter(a: Text, b: Text)
    requires a != [] && b != [] && a[0] == b[0] && Precedes(a, b)
    ensures Precedes(a[1..], b[1..])
  {
    var u, v := a[1..], b[1..];
    if |a| < |b| && a == b[..|a|] {
      assert v[..|u|] == b[..|a|][1..] == u;
    } else {
      var i :| 0 <= i < |a| && i < |b| && a[..i] == b[..i] && a[i] < b[i];
      assert i > 0;
      assert u[..i - 1] == a[..i][1..] && v[..i - 1] == b[..i][1..] && u[i - 1] < v[i - 1];
    }
  }

  lemma {:induction false} LessTransitive(a: Text, b: Text, c: Text)
    requires Less(a, b) && Less(b, c)
    ensures Less(a, c)
  {
    if a != [] && b != [] && c != [] && a[0] == b[0] == c[0] { LessTransitive(a[1..], b[1..], c[1..]); }
  }

  // ---------------------------------------------------------------- heights and rotations

  function Max(a: int, b: int): int { if a > b then a else b }

  /** The stored height. */
  function Height(t: Tree): int { if t.Leaf? then 0 else t.height }

  function Balance(t: Tree): int {
    if t.Leaf? then 0 else Height(t.left) - Height(t.right)
  }

  /** Stored heights are exact, and siblings differ by at most one. */
  predicate Balanced(t: Tree): (b: bool)
    ensures b && t.Node? ==> t.height >= 1
  {
    t.Node? ==> Balanced(t.left) && Balanced(t.right) && t.height == Max(Height(t.left), Height(t.right)) + 1 && -1 <= Balance(t) <= 1
  }

  /** Counted from the leaves. */
  function Depth(t: Tree): nat {
    if t.Leaf? then 0 else if Depth(t.left) > Depth(t.right) then Depth(t.left) + 1 else Depth(t.right) + 1
  }

  lemma {:induction false} HeightIsDepth(t: Tree)
    requires Balanced(t)
    ensures Height(t) == Depth(t)
  {
    if t.Node? { HeightIsDepth(t.left); HeightIsDepth(t.right); }
  }

  function WithHeight(t: Tree): Tree
    requires t.Node?
  {
    t.(height := Max(Height(t.left), Height(t.right)) + 1)
  }

  function RotateRight(y: Tree): Tree
    requires y.Node? && y.left.Node?
  {
    WithHeight(y.left.(right := WithHeight(y.(left := y.left.right))))
  }

  function RotateLeft(x: Tree): Tree
    requires x.Node? && x.right.Node?
  {
    WithHeight(x.right.(left := WithHeight(x.(right := x.right.left))))
  }

  /** A subtree two levels higher on the left, with no lean to the right, is levelled by one rotation. */
  lemma SingleRight(n: Tree)
    requires n.Node? && Balanced(n.left) && Balanced(n.right) && Balance(n) == 2
    ensures n.left.Node?
    ensures Balance(n.left) >= 0 ==> Balanced(RotateRight(n)) && Height(RotateRight(n)) == Height(n.left) + (if Balance(n.left) == 0 then 1 else 0)
  {
    if Balance(n.left) >= 0 { assert RotateRight(n).right.right == n.right; }
  }

  /** With a lean to the right it takes two. */
  lemma DoubleRight(n: Tree)
    requires n.Node? && Balanced(n.left) && Balanced(n.right) && Balance(n) == 2 && Balance(n.left) < 0
    ensures n.left.Node? && n.left.right.Node?
    ensures var r := RotateRight(n.(left := RotateLeft(n.left))); Balanced(r) && Height(r) == Height(n.left)
  {
    var r := RotateRight(n.(left := RotateLeft(n.left)));
    var m := n.left.right;
    assert Balanced(m) && r.left.left == n.left.left && r.left.right == m.left && r.right.left == m.right && r.right.right == n.right;
  }

  lemma SingleLeft(n: Tree)
    requires n.Node? && Balanced(n.left) && Balanced(n.right) && Balance(n) == -2
    ensures n.right.Node?
    ensures Balance(n.right) <= 0 ==> Balanced(RotateLeft(n)) && Height(RotateLeft(n)) == Height(n.right) + (if Balance(n.right) == 0 then 1 else 0)
  {
    if Balance(n.right) <= 0 { assert RotateLeft(n).left.left == n.left; }
  }

  lemma DoubleLeft(n: Tree)
    requires n.Node? && Balanced(n.left) && Balanced(n.right) && Balance(n) == -2 && Balance(n.right) > 0
    ensures n.right.Node? && n.right.left.Node?
    ensures var r := RotateLeft(n.(right := RotateRight(n.right))); Balanced(r) && Height(r) == Height(n.right)
  {
    var r := RotateLeft(n.(right := RotateRight(n.right)));
    var m := n.right.left;
    assert Balanced(m) && r.right.right == n.right.right && r.right.left == m.right && r.left.right == m.left && r.left.left == n.left;
  }

  // ---------------------------------------------------------------- operations

  /** After an insertion below t: a subtree that has become two levels higher leans to the side the key went to. */
  predicate Grown(t: Tree, key: Text) {
    && t.Node? && Balanced(t.left) && Balanced(t.right) && -2 <= Balance(t) <= 2
    && (Balance(t) == 2 ==> t.left.Node? && Compare(key, t.left.key) != 0 && Balance(t.left) == if Less(key, t.left.key) then 1 else -1)
    && (Balance(t) == -2 ==> t.right.Node? && Compare(key, t.right.key) != 0 && Balance(t.right) == if Less(key, t.right.key) then 1 else -1)
  }

  /** The rebalancing that ends an insertion; it never adds a level. */
  function FixInsert(t: Tree, key: Text): (r: Tree)
    requires Grown(t, key)
    ensures Balanced(r) && r.Node?
    ensures if -1 <= Balance(t) <= 1 then r == WithHeight(t) else Height(r) == Max(Height(t.left), Height(t.right))
  {
    hide RotateLeft, RotateRight;
    var n := WithHeight(t);
    if Balance(n) > 1 && Compare(key, n.left.key) < 0 then SingleRight(n); RotateRight(n)
    else if Balance(n) < -1 && Compare(key, n.right.key) > 0 then SingleLeft(n); RotateLeft(n)
    else if Balance(n) > 1 && Compare(key, n.left.key) > 0 then DoubleRight(n); RotateRight(n.(left := RotateLeft(n.left)))
    else if Balance(n) < -1 && Compare(key, n.right.key) < 0 then DoubleLeft(n); RotateLeft(n.(right := RotateRight(n.right)))
    else n
  }

  /** A put may add one level; if it does, the side the key went to is the higher one. */
  function Insert(t: Tree, key: Text, value: Text): (r: Tree)
    requires Balanced(t)
    ensures Balanced(r) && r.Node? && Height(t) <= Height(r) <= Height(t) + 1
    ensures t.Node? && Height(r) == Height(t) + 1 ==> Balance(r) == if Less(key, r.key) then 1 else -1
    ensures t.Node? && Height(r) == Height(t) + 1 ==> Compare(key, r.key) != 0
    ensures t.Node? ==>
              && (Compare(key, t.key) < 0 ==> Grown(t.(left := Insert(t.left, key, value)), key))
              && (Compare(key, t.key) > 0 ==> Grown(t.(right := Insert(t.right, key, value)), key))
    decreases t
  {
    hide Compare;
    if t.Leaf? then Node(Leaf, key, value, 1, Leaf)
    else
      var order := Compare(key, t.key);
      if order < 0 then FixInsert(t.(left := Insert(t.left, key, value)), key)
      else if order > 0 then FixInsert(t.(right := Insert(t.right, key, value)), key)
      else t.(value := value)
  }

  /** The rebalancing that ends a deletion and an update. */
  function Rebalance(t: Tree): (r: Tree)
    requires t.Node? && Balanced(t.left) && Balanced(t.right) && -2 <= Balance(t) <= 2
    ensures Balanced(r) && r.Node?
    ensures Max(Height(t.left), Height(t.right)) <= Height(r) <= Max(Height(t.left), Height(t.right)) + 1
    ensures -1 <= Balance(t) <= 1 ==> r == WithHeight(t)
  {
    hide RotateLeft, RotateRight;
    var n := WithHeight(t);
    if Balance(n) > 1 && Balance(n.left) >= 0 then SingleRight(n); RotateRight(n)
    else if Balance(n) > 1 && Balance(n.left) < 0 then DoubleRight(n); RotateRight(n.(left := RotateLeft(n.left)))
    else if Balance(n) < -1 && Balance(n.right) <= 0 then SingleLeft(n); RotateLeft(n)
    else if Balance(n) < -1 && Balance(n.right) > 0 then DoubleLeft(n); RotateLeft(n.(right := RotateRight(n.right)))
    else n
  }

  function Min(t: Tree): (m: Pair)
    requires t.Node?
  {
    if t.left.Leaf? then Pair(t.key, t.value) else Min(t.left)
  }

  function Delete(t: Tree, key: Text): (r: Tree)
    requires Balanced(t)
    ensures Balanced(r) && Height(t) - 1 <= Height(r) <= Height(t)
    decreases t
  {
    if t.Leaf? then t
    else
      var order := Compare(key, t.key);
      if order < 0 then Rebalance(t.(left := Delete(t.left, key)))
      else if order > 0 then Rebalance(t.(right := Delete(t.right, key)))
      else if t.left.Leaf? then t.right
      else if t.right.Leaf? then t.left
      else
        var m := Min(t.right);
        Rebalance(t.(key := m.key, value := m.value, right := Delete(t.right, m.key)))
  }

  /** A new value for an existing key; the tree keeps its shape. */
  function Update(t: Tree, key: Text, value: Text): (r: Tree)
    requires Balanced(t)
    ensures Balanced(r) && Height(r) == Height(t)
    decreases t
  {
    if t.Leaf? then t
    else
      var order := Compare(key, t.key);
      Rebalance(if order < 0 then t.(left := Update(t.left, key, value))
                else if order > 0 then t.(right := Update(t.right, key, value))
                else t.(value := value))
  }

  function Search(t: Tree, key: Text): Option<Text> {
    if t.Leaf? then None
    else
      var order := Compare(key, t.key);
      if order < 0 then Search(t.left, key) else if order > 0 then Search(t.right, key) else Some(t.value)
  }

  function Size(t: Tree): nat {
    if t.Leaf? then 0 else Size(t.left) + Size(t.right) + 1
  }

  function InOrder(t: Tree): (s: seq<Pair>)
    ensures |s| == Size(t)
  {
    if t.Leaf? then [] else InOrder(t.left) + [Pair(t.key, t.value)] + InOrder(t.right)
  }

  // ---------------------------------------------------------------- the reference: sorted association lists

  ghost predicate Ascending(s: seq<Pair>) {
    forall i, j :: 0 <= i < j < |s| ==> Less(s[i].key, s[j].key)
  }

  function Put(s: seq<Pair>, key: Text, value: Text): seq<Pair> {
    if s == [] || Less(key, s[0].key) then [Pair(key, value)] + s
    else if s[0].key == key then [Pair(key, value)] + s[1..]
    else [s[0]] + Put(s[1..], key, value)
  }

  function Remove(s: seq<Pair>, key: Text): seq<Pair> {
    if s == [] then [] else if s[0].key == key then s[1..] else [s[0]] + Remove(s[1..], key)
  }

  function Replace(s: seq<Pair>, key: Text, value: Text): seq<Pair> {
    if s == [] then [] else if s[0].key == key then [Pair(key, value)] + s[1..] else [s[0]] + Replace(s[1..], key, value)
  }

  function Get(s: seq<Pair>, key: Text): Option<Text> {
    if s == [] then None else if s[0].key == key then Some(s[0].value) else Get(s[1..], key)
  }

  /** Everything in `left` comes before p, and p before everything in `right`. */
  lemma AscendingParts(left: seq<Pair>, p: Pair, right: seq<Pair>)
    ensures Ascending(left + [p] + right) <==>
            && Ascending(left) && Ascending(right)
            && (forall i :: 0 <= i < |left| ==> Less(left[i].key, p.key))
            && (forall i :: 0 <= i < |right| ==> Less(p.key, right[i].key))
  {
    hide Less;
    var s := left + [p] + right;
    var n := |left|;
    assert s[n] == p;
    forall i | 0 <= i < |s| ensures s[i] == if i < n then left[i] else if i == n then p else right[i - n - 1] { }
    if Ascending(s) {
      forall i, j | 0 <= i < j < |left| ensures Less(left[i].key, left[j].key) { assert Less(s[i].key, s[j].key); }
      forall i, j | 0 <= i < j < |right| ensures Less(right[i].key, right[j].key) {
        assert Less(s[n + 1 + i].key, s[n + 1 + j].key);
      }
      forall i | 0 <= i < |left| ensures Less(left[i].key, p.key) { assert Less(s[i].key, s[n].key); }
      forall i | 0 <= i < |right| ensures Less(p.key, right[i].key) { assert Less(s[n].key, s[n + 1 + i].key); }
    }
    if Ascending(left) && Ascending(right)
       && (forall i :: 0 <= i < |left| ==> Less(left[i].key, p.key)) && (forall i :: 0 <= i < |right| ==> Less(p.key, right[i].key))
    {
      forall i, j | 0 <= i < j < |s| ensures Less(s[i].key, s[j].key) {
        if i < n < j { LessTransitive(left[i].key, p.key, right[j - n - 1].key); }
      }
    }
  }

  lemma AscendingTail(s: seq<Pair>)
    requires Ascending(s) && s != []
    ensures Ascending(s[1..])
  {
  }

  lemma {:induction false} Absent(s: seq<Pair>, key: Text, value: Text)
    requires forall i :: 0 <= i < |s| ==> s[i].key != key
    ensures Replace(s, key, value) == s && Remove(s, key) == s && Get(s, key) == None
  {
    if s != [] { Absent(s[1..], key, value); assert s == [s[0]] + s[1..]; }
  }

  /** The operations on a list with this first pair. */
  lemma Cons(x: Pair, rest: seq<Pair>, key: Text, value: Text)
    ensures var s := [x] + rest;
            if Less(key, x.key) then Put(s, key, value) == [Pair(key, value)] + s
            else if key == x.key then Put(s, key, value) == [Pair(key, value)] + rest
            else Put(s, key, value) == [x] + Put(rest, key, value)
    ensures var s := [x] + rest;
            if key == x.key then
              Replace(s, key, value) == [Pair(key, value)] + rest && Remove(s, key) == rest && Get(s, key) == Some(x.value)
            else
              Replace(s, key, value) == [x] + Replace(rest, key, value) && Remove(s, key) == [x] + Remove(rest, key) && Get(s, key) == Get(rest, key)
  {
    var s := [x] + rest;
    assert s[0] == x && s[1..] == rest;
  }

  lemma LessNot(a: Text, b: Text)
    ensures Less(a, b) ==> !Less(b, a) && a != b
    ensures Less(a, b) || a == b || Less(b, a)
    ensures a == b ==> !Less(a, b)
    ensures Compare(a, b) > 0 <==> Less(b, a)
    ensures Compare(a, b) == 0 <==> a == b
  {
    CompareEqual(a, b);
    CompareEqual(b, a);
  }

  /** The operations with a key before p see only what stands before p. */
  lemma {:induction false} SplitBefore(left: seq<Pair>, p: Pair, right: seq<Pair>, key: Text, value: Text)
    requires Ascending(left + [p] + right) && Less(key, p.key)
    ensures var s := left + [p] + right;
            && Put(s, key, value) == Put(left, key, value) + [p] + right && Replace(s, key, value) == Replace(left, key, value) + [p] + right
            && Remove(s, key) == Remove(left, key) + [p] + right && Get(s, key) == Get(left, key)
    decreases |left|
  {
    hide Less, Put, Remove, Replace, Get;
    var s := left + [p] + right;
    LessNot(key, p.key);
    AscendingParts(left, p, right);
    if left == [] {
      assert s == [p] + right;
      Cons(p, right, key, value);
      OnEmpty(key, value);
      forall i | 0 <= i < |right| ensures right[i].key != key { LessTransitive(key, p.key, right[i].key); LessNot(key, right[i].key); }
      Absent(right, key, value);
    } else {
      var x, l := left[0], left[1..];
      assert s == [x] + (l + [p] + right) && left == [x] + l && s[1..] == l + [p] + right;
      AscendingTail(s);
      SplitBefore(l, p, right, key, value);
      Cons(x, l + [p] + right, key, value);
      Cons(x, l, key, value);
      Prefix(Pair(key, value), left, p, right);
      Prefix(Pair(key, value), l, p, right);
      Prefix(x, Put(l, key, value), p, right);
      Prefix(x, Replace(l, key, value), p, right);
      Prefix(x, Remove(l, key), p, right);
    }
  }

  lemma OnEmpty(key: Text, value: Text)
    ensures Put([], key, value) == [Pair(key, value)] && Replace([], key, value) == [] && Remove([], key) == [] && Get([], key) == None
  {
  }

  lemma Prefix(x: Pair, left: seq<Pair>, p: Pair, right: seq<Pair>)
    ensures [x] + (left + [p] + right) == [x] + left + [p] + right
  {
  }

  lemma {:induction false} SplitHere(left: seq<Pair>, p: Pair, right: seq<Pair>, value: Text)
    requires Ascending(left + [p] + right)
    ensures var s, key := left + [p] + right, p.key;
            && Put(s, key, value) == left + [Pair(key, value)] + right && Replace(s, key, value) == left + [Pair(key, value)] + right
            && Remove(s, key) == left + right && Get(s, key) == Some(p.value)
    decreases |left|
  {
    hide Less, Put, Remove, Replace, Get;
    var s := left + [p] + right;
    LessNot(p.key, p.key);
    AscendingParts(left, p, right);
    if left == [] {
      assert s == [p] + right;
      Cons(p, right, p.key, value);
    } else {
      var x, l := left[0], left[1..];
      assert s == [x] + (l + [p] + right) && left == [x] + l && s[1..] == l + [p] + right;
      AscendingTail(s);
      SplitHere(l, p, right, value);
      LessNot(x.key, p.key);
      Cons(x, l + [p] + right, p.key, value);
    }
  }

  /** The operations with a key after p see only what stands after p. */
  lemma {:induction false} SplitAfter(left: seq<Pair>, p: Pair, right: seq<Pair>, key: Text, value: Text)
    requires Ascending(left + [p] + right) && Less(p.key, key)
    ensures var s := left + [p] + right;
            && Put(s, key, value) == left + [p] + Put(right, key, value) && Replace(s, key, value) == left + [p] + Replace(right, key, value)
            && Remove(s, key) == left + [p] + Remove(right, key) && Get(s, key) == Get(right, key)
    decreases |left|
  {
    hide Less, Put, Remove, Replace, Get;
    var s := left + [p] + right;
    LessNot(p.key, key);
    AscendingParts(left, p, right);
    if left == [] {
      assert s == [p] + right;
      Cons(p, right, key, value);
    } else {
      var x, l := left[0], left[1..];
      assert s == [x] + (l + [p] + right) && s[1..] == l + [p] + right;
      AscendingTail(s);
      SplitAfter(l, p, right, key, value);
      LessTransitive(x.key, p.key, key);
      LessNot(x.key, key);
      Cons(x, l + [p] + right, key, value);
    }
  }

  // ---------------------------------------------------------------- the tree is the sorted list

  lemma OrderOf(t: Tree)
    requires t.Node?
    ensures InOrder(t) == InOrder(t.left) + [Pair(t.key, t.value)] + InOrder(t.right)
    ensures InOrder(WithHeight(t)) == InOrder(t)
  {
  }

  lemma Regroup(a: seq<Pair>, p: Pair, b: seq<Pair>, q: Pair, c: seq<Pair>)
    ensures (a + [p] + b) + [q] + c == a + [p] + (b + [q] + c)
  {
  }

  lemma RotationsKeepOrder(t: Tree)
    requires t.Node?
    ensures t.left.Node? ==> InOrder(RotateRight(t)) == InOrder(t)
    ensures t.right.Node? ==> InOrder(RotateLeft(t)) == InOrder(t)
    ensures InOrder(WithHeight(t)) == InOrder(t)
  {
    hide InOrder, Height;
    OrderOf(t);
    if t.left.Node? {
      var x := t.left;
      var y := t.(left := x.right);
      OrderOf(x);
      OrderOf(y);
      OrderOf(x.(right := WithHeight(y)));
      Regroup(InOrder(x.left), Pair(x.key, x.value), InOrder(x.right), Pair(t.key, t.value), InOrder(t.right));
    }
    if t.right.Node? {
      var y := t.right;
      var x := t.(right := y.left);
      OrderOf(y);
      OrderOf(x);
      OrderOf(y.(left := WithHeight(x)));
      Regroup(InOrder(t.left), Pair(t.key, t.value), InOrder(y.left), Pair(y.key, y.value), InOrder(y.right));
    }
  }

  lemma DoubleRotationsKeepOrder(t: Tree)
    requires t.Node?
    ensures t.left.Node? && t.left.right.Node? ==> InOrder(RotateRight(t.(left := RotateLeft(t.left)))) == InOrder(t)
    ensures t.right.Node? && t.right.left.Node? ==> InOrder(RotateLeft(t.(right := RotateRight(t.right)))) == InOrder(t)
  {
    hide RotateLeft, RotateRight;
    if t.left.Node? && t.left.right.Node? {
      RotationsKeepOrder(t.left);
      RotationIsNode(t.left);
      RotationsKeepOrder(t.(left := RotateLeft(t.left)));
    }
    if t.right.Node? && t.right.left.Node? {
      RotationsKeepOrder(t.right);
      RotationIsNode(t.right);
      RotationsKeepOrder(t.(right := RotateRight(t.right)));
    }
  }

  lemma RotationIsNode(t: Tree)
    requires t.Node?
    ensures t.left.Node? ==> RotateRight(t).Node?
    ensures t.right.Node? ==> RotateLeft(t).Node?
  {
  }

  lemma RebalanceKeepsOrder(t: Tree)
    requires t.Node? && Balanced(t.left) && Balanced(t.right) && -2 <= Balance(t) <= 2
    ensures InOrder(Rebalance(t)) == InOrder(t)
  {
    hide RotateLeft, RotateRight, InOrder;
    var n := WithHeight(t);
    RotationsKeepOrder(t);
    RotationsKeepOrder(n);
    DoubleRotationsKeepOrder(n);
    if Balance(n) > 1 { SingleRight(n); if Balance(n.left) < 0 { DoubleRight(n); } }
    if Balance(n) < -1 { SingleLeft(n); if Balance(n.right) > 0 { DoubleLeft(n); } }
  }

  /** An insertion puts the pair into its place in the sorted list, rotations or not. */
  lemma {:induction false} InsertPuts(t: Tree, key: Text, value: Text)
    requires Balanced(t) && Ascending(InOrder(t))
    ensures InOrder(Insert(t, key, value)) == Put(InOrder(t), key, value)
  {
    hide Put, FixInsert, Less, Grown, WithHeight;
    if t.Leaf? {
      OnEmpty(key, value);
      assert InOrder(Leaf) == [];
    } else {
      var p, l, r := Pair(t.key, t.value), InOrder(t.left), InOrder(t.right);
      AscendingParts(l, p, r);
      LessNot(key, t.key);
      LessNot(t.key, key);
      var whole, order := Insert(t, key, value), Compare(key, t.key);
      if order < 0 {
        InsertPuts(t.left, key, value);
        SplitBefore(l, p, r, key, value);
        FixKeepsOrder(t.(left := Insert(t.left, key, value)), key);
      } else if order > 0 {
        InsertPuts(t.right, key, value);
        SplitAfter(l, p, r, key, value);
        FixKeepsOrder(t.(right := Insert(t.right, key, value)), key);
      } else {
        SplitHere(l, p, r, value);
      }
    }
  }

  lemma FixKeepsOrder(n: Tree, key: Text)
    requires Grown(n, key)
    ensures InOrder(FixInsert(n, key)) == InOrder(n)
  {
    hide RotateLeft, RotateRight, InOrder;
    var m := WithHeight(n);
    RotationsKeepOrder(n);
    RotationsKeepOrder(m);
    DoubleRotationsKeepOrder(m);
    if Balance(m) > 1 { SingleRight(m); if Balance(m.left) < 0 { DoubleRight(m); } }
    if Balance(m) < -1 { SingleLeft(m); if Balance(m.right) > 0 { DoubleLeft(m); } }
  }

  lemma {:induction false} MinFirst(t: Tree)
    requires t.Node?
    ensures InOrder(t) != [] && Min(t) == InOrder(t)[0]
  {
    if t.left.Node? { MinFirst(t.left); }
  }

  /** A deletion removes exactly the key's pair. */
  lemma {:induction false} DeleteRemoves(t: Tree, key: Text)
    requires Balanced(t) && Ascending(InOrder(t))
    ensures InOrder(Delete(t, key)) == Remove(InOrder(t), key)
    decreases t
  {
    hide Remove;
    if t.Leaf? {
      OnEmpty(key, []);
      assert InOrder(Leaf) == [];
    } else {
      var p, l, r := Pair(t.key, t.value), InOrder(t.left), InOrder(t.right);
      AscendingParts(l, p, r);
      LessNot(key, t.key);
      LessNot(t.key, key);
      var order := Compare(key, t.key);
      if order < 0 {
        DeleteRemoves(t.left, key);
        SplitBefore(l, p, r, key, []);
        RebalanceKeepsOrder(t.(left := Delete(t.left, key)));
      } else if order > 0 {
        DeleteRemoves(t.right, key);
        SplitAfter(l, p, r, key, []);
        RebalanceKeepsOrder(t.(right := Delete(t.right, key)));
      } else {
        SplitHere(l, p, r, []);
        if t.left.Node? && t.right.Node? { DeleteMin(t); }
      }
    }
  }

  /** The node with two children takes over the next pair, which is deleted below. */
  lemma DeleteMin(t: Tree)
    requires Balanced(t) && t.Node? && t.left.Node? && t.right.Node? && Ascending(InOrder(t.right))
    ensures InOrder(Delete(t, t.key)) == InOrder(t.left) + InOrder(t.right)
    decreases t, 0
  {
    hide Remove, InOrder, Delete, Rebalance, Ascending;
    var l, r := InOrder(t.left), InOrder(t.right);
    var m := Min(t.right);
    MinFirst(t.right);
    DeleteRemoves(t.right, m.key);
    assert r == [m] + r[1..];
    Cons(m, r[1..], m.key, []);
    DeleteHere(t);
    var n := t.(key := m.key, value := m.value, right := Delete(t.right, m.key));
    RebalanceKeepsOrder(n);
    OrderOf(n);
    assert l + [m] + r[1..] == l + r;
  }

  lemma DeleteHere(t: Tree)
    requires Balanced(t) && t.Node? && t.left.Node? && t.right.Node?
    ensures var m := Min(t.right);
            && Delete(t, t.key) == Rebalance(t.(key := m.key, value := m.value, right := Delete(t.right, m.key)))
  {
    LessNot(t.key, t.key);
  }

  /** An update replaces the value of an existing key and does nothing otherwise. */
  lemma {:induction false} UpdateReplaces(t: Tree, key: Text, value: Text)
    requires Balanced(t) && Ascending(InOrder(t))
    ensures InOrder(Update(t, key, value)) == Replace(InOrder(t), key, value)
  {
    hide Replace, Rebalance;
    if t.Leaf? {
      OnEmpty(key, value);
      assert InOrder(Leaf) == [];
    } else {
      var p, l, r := Pair(t.key, t.value), InOrder(t.left), InOrder(t.right);
      AscendingParts(l, p, r);
      LessNot(key, t.key);
      LessNot(t.key, key);
      var order := Compare(key, t.key);
      if order < 0 {
        UpdateReplaces(t.left, key, value);
        SplitBefore(l, p, r, key, value);
        RebalanceKeepsOrder(t.(left := Update(t.left, key, value)));
      } else if order > 0 {
        UpdateReplaces(t.right, key, value);
        SplitAfter(l, p, r, key, value);
        RebalanceKeepsOrder(t.(right := Update(t.right, key, value)));
      } else {
        SplitHere(l, p, r, value);
        RebalanceKeepsOrder(t.(value := value));
      }
    }
  }

  lemma {:induction false} SearchGets(t: Tree, key: Text)
    requires Ascending(InOrder(t))
    ensures Search(t, key) == Get(InOrder(t), key)
  {
    if t.Node? {
      var p, l, r := Pair(t.key, t.value), InOrder(t.left), InOrder(t.right);
      AscendingParts(l, p, r);
      LessNot(key, t.key);
      LessNot(t.key, key);
      if Compare(key, t.key) < 0 {
        SearchGets(t.left, key);
        SplitBefore(l, p, r, key, []);
      } else if Compare(key, t.key) > 0 {
        SearchGets(t.right, key);
        SplitAfter(l, p, r, key, []);
      } else {
        SplitHere(l, p, r, []);
      }
    }
  }

  // ---------------------------------------------------------------- the sorted list is a map

  lemma AscendingCons(x: Pair, rest: seq<Pair>)
    ensures Ascending([x] + rest) <==> Ascending(rest) && forall e :: e in rest ==> Less(x.key, e.key)
  {
    assert [] + [x] + rest == [x] + rest;
    AscendingParts([], x, rest);
    assert forall i :: 0 <= i < |rest| ==> rest[i] in rest;
  }

  /** A put keeps the list ascending; a lookup afterwards sees the new value for its key and the old one for all others. */
  lemma {:induction false} PutLaws(s: seq<Pair>, key: Text, value: Text, other: Text)
    requires Ascending(s)
    ensures Ascending(Put(s, key, value))
    ensures forall e :: e in Put(s, key, value) ==> e.key == key || e in s
    ensures Get(Put(s, key, value), other) == if other == key then Some(value) else Get(s, other)
  {
    hide Ascending, Less, Put, Get;
    var new' := Pair(key, value);
    EmptyAscending();
    if s == [] {
      OnEmpty(key, value);
      OnEmpty(other, value);
      Cons(new', [], other, value);
      AscendingCons(new', []);
      assert [new'] + [] == [new'];
    } else {
      var x, r := s[0], s[1..];
      assert s == [x] + r;
      AscendingCons(x, r);
      Cons(x, r, key, value);
      Cons(x, r, other, value);
      LessNot(x.key, key);
      LessNot(key, x.key);
      if Less(key, x.key) {
        Cons(new', s, other, value);
        AscendingCons(new', s);
        Before(key, x, r);
      } else if key == x.key {
        Cons(new', r, other, value);
        AscendingCons(new', r);
      } else {
        PutLaws(r, key, value, other);
        Cons(x, Put(r, key, value), other, value);
        AscendingCons(x, Put(r, key, value));
      }
    }
  }

  lemma EmptyAscending()
    ensures Ascending([])
  {
  }

  lemma Before(key: Text, x: Pair, r: seq<Pair>)
    requires Less(key, x.key) && forall e :: e in r ==> Less(x.key, e.key)
    ensures forall e :: e in [x] + r ==> Less(key, e.key)
  {
    forall e | e in r ensures Less(key, e.key) { LessTransitive(key, x.key, e.key); }
  }

  /** After a removal the key is gone and nothing else has changed. */
  lemma {:induction false} RemoveLaws(s: seq<Pair>, key: Text, other: Text)
    requires Ascending(s)
    ensures Ascending(Remove(s, key))
    ensures forall e :: e in Remove(s, key) ==> e in s
    ensures Get(Remove(s, key), other) == if other == key then None else Get(s, other)
  {
    hide Ascending, Less, Remove, Get;
    if s == [] {
      OnEmpty(key, []);
      OnEmpty(other, []);
      EmptyAscending();
    } else {
      var x, r := s[0], s[1..];
      assert s == [x] + r;
      AscendingCons(x, r);
      RemoveLaws(r, key, other);
      Cons(x, r, key, []);
      Cons(x, r, other, []);
      Cons(x, Remove(r, key), other, []);
      AscendingCons(x, Remove(r, key));
      if key == x.key {
        forall i | 0 <= i < |r| ensures r[i].key != key { assert r[i] in r; LessNot(x.key, r[i].key); }
        Absent(r, key, []);
      }
    }
  }

  /** An update changes the value of a key that is there, and nothing else. */
  lemma {:induction false} ReplaceLaws(s: seq<Pair>, key: Text, value: Text, other: Text)
    ensures |Replace(s, key, value)| == |s| && forall i :: 0 <= i < |s| ==> Replace(s, key, value)[i].key == s[i].key
    ensures Get(Replace(s, key, value), other) == if other == key && Get(s, key).Some? then Some(value) else Get(s, other)
  {
    hide Replace, Get;
    if s == [] {
      OnEmpty(key, value);
      OnEmpty(other, value);
    } else {
      var x, r := s[0], s[1..];
      assert s == [x] + r;
      ReplaceLaws(r, key, value, other);
      Cons(x, r, key, value);
      Cons(x, r, other, value);
      Cons(Pair(key, value), r, other, value);
      Cons(x, Replace(r, key, value), other, value);
    }
  }

  lemma ReplaceAscending(s: seq<Pair>, key: Text, value: Text)
    requires Ascending(s)
    ensures Ascending(Replace(s, key, value))
  {
    ReplaceLaws(s, key, value, key);
  }

  lemma {:induction false} GetMember(s: seq<Pair>, key: Text, value: Text)
    requires Ascending(s)
    ensures Get(s, key) == Some(value) <==> Pair(key, value) in s
  {
    hide Ascending, Less, Get;
    if s == [] {
      OnEmpty(key, value);
    } else {
      var x, r := s[0], s[1..];
      assert s == [x] + r;
      AscendingCons(x, r);
      GetMember(r, key, value);
      Cons(x, r, key, value);
      if key == x.key {
        forall e | e in r ensures e != Pair(key, value) { LessNot(x.key, e.key); }
      }
    }
  }

  /** The listing is strictly ascending by key and holds exactly the pairs a search finds. */
  lemma ListingExact(t: Tree, p: Pair)
    requires Ascending(InOrder(t))
    ensures p in InOrder(t) <==> Search(t, p.key) == Some(p.value)
  {
    SearchGets(t, p.key);
    GetMember(InOrder(t), p.key, p.value);
  }

  // ---------------------------------------------------------------- how low the tree stays

  function Fib(n: nat): nat {
    if n < 2 then n else Fib(n - 1) + Fib(n - 2)
  }

  lemma {:induction false} FibMonotone(n: nat)
    ensures Fib(n) <= Fib(n + 1)
  {
    if n >= 2 { FibMonotone(n - 1); FibMonotone(n - 2); }
  }

  lemma FibStep(h: nat, a: nat, b: nat)
    requires h > 0 && (a == h - 1 || b == h - 1) && a >= h - 2 && b >= h - 2
    ensures Fib(a + 2) + Fib(b + 2) >= Fib(h + 2)
  {
    FibMonotone(h);
    if a >= h { FibUp(h, a + 2); }
    if b >= h { FibUp(h, b + 2); }
    if a >= h - 1 { FibUp(h + 1, a + 2); }
    if b >= h - 1 { FibUp(h + 1, b + 2); }
  }

  lemma {:induction false} FibUp(m: nat, n: nat)
    requires m <= n
    ensures Fib(m) <= Fib(n)
    decreases n
  {
    if m < n { FibUp(m, n - 1); FibMonotone(n - 1); }
  }

  /** A tree of height h has at least Fib(h + 2) - 1 nodes. */
  lemma {:induction false} NotTooHigh(t: Tree)
    requires Balanced(t)
    ensures Height(t) >= 0 && Size(t) >= Fib(Height(t) + 2) - 1
  {
    hide Fib;
    FibStart();
    if t.Node? {
      NotTooHigh(t.left);
      NotTooHigh(t.right);
      FibStep(t.height, Height(t.left), Height(t.right));
    }
  }

  lemma FibStart()
    ensures Fib(2) == 1
  {
  }
}
