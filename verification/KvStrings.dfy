/** The strings of the tree in wow_kv_list.c: which a deletion frees while a node still points to them, what a node's value points
    to after a set, and what can be read after an update. A pair takes its two strings along wherever it moves, so they are
    named by the key they were stored under. */
module KvStrings {
  import opened KvTree

  // ---------------------------------------------------------------- deletion

  /** The pairs whose strings avl_delete frees: it frees the node it unlinks, which for a node with two children is the one
      whose pair that node has just taken over. */
  function Freed(t: Tree, key: Text): set<Text>
    decreases t
  {
    if t.Leaf? then {}
    else
      var order := Compare(key, t.key);
      if order < 0 then Freed(t.left, key)
      else if order > 0 then Freed(t.right, key)
      else if t.left.Leaf? || t.right.Leaf? then {t.key}
      else Freed(t.right, Min(t.right).key)
  }

  /** Does the node of this key have two children? */
  predicate TwoChildren(t: Tree, key: Text) {
    t.Node? &&
    var order := Compare(key, t.key);
    if order < 0 then TwoChildren(t.left, key) else if order > 0 then TwoChildren(t.right, key)
    else t.left.Node? && t.right.Node?
  }

  /** After the deletion some node's strings have been freed. */
  ghost predicate Dangles(t: Tree, key: Text)
    requires Balanced(t)
  {
    exists k :: k in Freed(t, key) && Search(Delete(t, key), k).Some?
  }

  lemma {:induction false} GetIndex(s: seq<Pair>, key: Text) returns (i: nat)
    requires Get(s, key).Some?
    ensures i < |s| && s[i].key == key
  {
    if s[0].key == key { i := 0; } else { i := GetIndex(s[1..], key); i := i + 1; }
  }

  /** Where the search goes for the keys of a subtree. */
  lemma Subtrees(t: Tree, k: Text)
    requires t.Node? && Ascending(InOrder(t))
    ensures Ascending(InOrder(t.left)) && Ascending(InOrder(t.right))
    ensures Search(t.left, k).Some? ==> Less(k, t.key) && Search(t, k).Some?
    ensures Search(t.right, k).Some? ==> Less(t.key, k) && Search(t, k).Some?
  {
    hide Less, Get, Ascending;
    AscendingParts(InOrder(t.left), Pair(t.key, t.value), InOrder(t.right));
    LessNot(k, t.key);
    LessNot(t.key, k);
    if Search(t.left, k).Some? {
      SearchGets(t.left, k);
      var i := GetIndex(InOrder(t.left), k);
    }
    if Search(t.right, k).Some? {
      SearchGets(t.right, k);
      var i := GetIndex(InOrder(t.right), k);
    }
  }

  /** A deletion of a subtree's first key frees its strings. */
  lemma {:induction false} FreedMin(t: Tree)
    requires t.Node? && Ascending(InOrder(t))
    ensures Freed(t, Min(t).key) == {Min(t).key} && Search(t, Min(t).key).Some?
  {
    hide Less, Ascending;
    var k := Min(t).key;
    LessNot(k, t.key);
    LessNot(t.key, k);
    if t.left.Node? {
      Subtrees(t, k);
      FreedMin(t.left);
    }
  }

  /** At most one pair's strings are freed: the deleted key's own, or those of the pair that replaces it. */
  lemma {:induction false} FreedIs(t: Tree, key: Text) returns (k: Text)
    requires Ascending(InOrder(t))
    ensures Search(t, key).None? ==> Freed(t, key) == {} && !TwoChildren(t, key)
    ensures Search(t, key).Some? ==> Freed(t, key) == {k} && Search(t, k).Some? && (k != key <==> TwoChildren(t, key))
    decreases t
  {
    hide Less, Ascending;
    k := key;
    if t.Node? {
      LessNot(key, t.key);
      LessNot(t.key, key);
      Subtrees(t, key);
      var order := Compare(key, t.key);
      if order < 0 {
        k := FreedIs(t.left, key);
        Subtrees(t, k);
      } else if order > 0 {
        k := FreedIs(t.right, key);
        Subtrees(t, k);
      } else if t.left.Node? && t.right.Node? {
        k := Min(t.right).key;
        FreedMin(t.right);
        Subtrees(t, k);
        LessNot(t.key, k);
      }
    }
  }

  /** A deletion leaves a node with freed strings exactly if the key's node has two children. */
  lemma DeleteDangles(t: Tree, key: Text)
    requires Balanced(t) && Ascending(InOrder(t))
    ensures Dangles(t, key) <==> TwoChildren(t, key)
  {
    hide Less, Ascending, Freed, TwoChildren, Search, Delete, Remove, Get;
    var k := FreedIs(t, key);
    DeleteRemoves(t, key);
    RemoveLaws(InOrder(t), key, k);
    SearchGets(t, k);
    SearchGets(Delete(t, key), k);
    SearchGets(t, key);
    if Search(t, key).Some? { assert k in Freed(t, key); }
  }

  /** Three sets in the order middle, low, high and the deletion of the middle key do it. */
  lemma ThreeSetsDangle(a: Text, b: Text, c: Text, v: Text) returns (t: Tree)
    requires Less(a, b) && Less(b, c)
    ensures t == Insert(Insert(Insert(Leaf, b, v), a, v), c, v)
    ensures Balanced(t) && Ascending(InOrder(t)) && Dangles(t, b)
  {
    hide Compare, FixInsert;
    LessNot(a, b);
    LessNot(b, c);
    LessNot(b, b);
    LessTransitive(a, b, c);
    CompareEqual(c, b);
    var low, high := Node(Leaf, a, v, 1, Leaf), Node(Leaf, c, v, 1, Leaf);
    assert Insert(Leaf, b, v) == Node(Leaf, b, v, 1, Leaf);
    assert Insert(Insert(Leaf, b, v), a, v) == Node(low, b, v, 2, Leaf);
    t := Insert(Insert(Insert(Leaf, b, v), a, v), c, v);
    assert t == Node(low, b, v, 2, high);
    assert InOrder(low) == [Pair(a, v)] && InOrder(high) == [Pair(c, v)];
    assert InOrder(t) == [Pair(a, v), Pair(b, v), Pair(c, v)];
    assert TwoChildren(t, b);
    DeleteDangles(t, b);
  }

  // ---------------------------------------------------------------- what a value points to

  /** A node's value pointer: to a block of its own, or to the buffer a caller has passed. */
  datatype Ref = Block(bytes: seq<bv8>) | Callers(buffer: int)

  /** The string at the start of some bytes, if they hold a terminator. */
  function Chars(bytes: seq<bv8>): Option<Text> {
    if bytes == [] then None
    else if bytes[0] == 0 then Some([])
    else match Chars(bytes[1..]) case None => None case Some(s) => Some([bytes[0]] + s)
  }

  predicate IsText(s: Text) {
    forall i :: 0 <= i < |s| ==> s[i] != 0
  }

  function Terminated(s: Text): seq<bv8> { s + [0] }

  lemma {:induction false} CharsUpTo(s: Text, last: bv8)
    requires IsText(s)
    ensures Chars(s + [last]) == if last == 0 then Some(s) else None
  {
    if s == [] {
      assert [last][1..] == [];
    } else {
      assert (s + [last])[0] == s[0] && (s + [last])[1..] == s[1..] + [last];
      CharsUpTo(s[1..], last);
      assert [s[0]] + s[1..] == s;
    }
  }

  /** The bytes behind a value pointer; a buffer that is not known holds nothing. */
  function BytesAt(r: Ref, buffers: map<int, seq<bv8>>): seq<bv8> {
    match r
    case Block(bytes) => bytes
    case Callers(b) => if b in buffers then buffers[b] else []
  }

  /** What is read under each key is what the tree of values says. */
  ghost predicate Reads(t: Tree, refs: map<Text, Ref>, buffers: map<int, seq<bv8>>) {
    forall k :: ReadsAt(t, refs, buffers, k)
  }

  ghost predicate ReadsAt(t: Tree, refs: map<Text, Ref>, buffers: map<int, seq<bv8>>, k: Text) {
    match Search(t, k)
    case None => k !in refs
    case Some(v) => k in refs && Chars(BytesAt(refs[k], buffers)) == Some(v)
  }

  /** avl_insert: a new node gets a copy of the value, an existing one the caller's pointer. */
  function SetRefs(t: Tree, refs: map<Text, Ref>, key: Text, value: Text, buffer: int): map<Text, Ref>
    decreases t
  {
    if t.Leaf? then refs[key := Block(Terminated(value))]
    else
      var order := Compare(key, t.key);
      if order < 0 then SetRefs(t.left, refs, key, value, buffer)
      else if order > 0 then SetRefs(t.right, refs, key, value, buffer)
      else refs[key := Callers(buffer)]
  }

  /** avl_update: a new block as long as the value and its terminator, of which the last byte stays as the allocator left it. */
  function UpdateRefs(t: Tree, refs: map<Text, Ref>, key: Text, value: Text, junk: bv8): map<Text, Ref>
    decreases t
  {
    if t.Leaf? then refs
    else
      var order := Compare(key, t.key);
      if order < 0 then UpdateRefs(t.left, refs, key, value, junk)
      else if order > 0 then UpdateRefs(t.right, refs, key, value, junk)
      else refs[key := Block(value + [junk])]
  }

  /** A set stores the caller's pointer exactly if the key is in the tree. */
  lemma {:induction false} SetRefsIs(t: Tree, refs: map<Text, Ref>, key: Text, value: Text, buffer: int)
    ensures SetRefs(t, refs, key, value, buffer)
         == refs[key := if Search(t, key).Some? then Callers(buffer) else Block(Terminated(value))]
    decreases t
  {
    if t.Node? {
      SetRefsIs(t.left, refs, key, value, buffer);
      SetRefsIs(t.right, refs, key, value, buffer);
    }
  }

  lemma {:induction false} UpdateRefsIs(t: Tree, refs: map<Text, Ref>, key: Text, value: Text, junk: bv8)
    ensures UpdateRefs(t, refs, key, value, junk) == if Search(t, key).Some? then refs[key := Block(value + [junk])] else refs
    decreases t
  {
    if t.Node? {
      UpdateRefsIs(t.left, refs, key, value, junk);
      UpdateRefsIs(t.right, refs, key, value, junk);
    }
  }

  /** A lookup after a set, in the tree of values. */
  lemma SearchAfterInsert(t: Tree, key: Text, value: Text, k: Text)
    requires Balanced(t) && Ascending(InOrder(t))
    ensures Search(Insert(t, key, value), k) == if k == key then Some(value) else Search(t, k)
  {
    hide Ascending, Insert, Search, Put, Get, Balanced;
    InsertPuts(t, key, value);
    PutLaws(InOrder(t), key, value, k);
    SearchGets(t, k);
    SearchGets(Insert(t, key, value), k);
  }

  lemma SearchAfterUpdate(t: Tree, key: Text, value: Text, k: Text)
    requires Balanced(t) && Ascending(InOrder(t))
    ensures Search(Update(t, key, value), k) == if k == key && Search(t, k).Some? then Some(value) else Search(t, k)
  {
    hide Less, Update, Search, Replace, Get, Balanced;
    UpdateReplaces(t, key, value);
    ReplaceLaws(InOrder(t), key, value, k);
    SearchGets(t, k);
    SearchGets(Update(t, key, value), k);
  }

  /** Right after a set everything reads as the values say. Once the caller has put something else into its buffer, which no
      node pointed to before, that is still so exactly if the key was not in the tree, or the buffer holds the same string. */
  lemma SetReads(t: Tree, refs: map<Text, Ref>, buffers: map<int, seq<bv8>>, key: Text, value: Text, buffer: int, later: seq<bv8>)
    requires Balanced(t) && Ascending(InOrder(t)) && IsText(value) && Reads(t, refs, buffers)
    requires buffer in buffers && Chars(buffers[buffer]) == Some(value)
    requires forall k :: k in refs ==> refs[k] != Callers(buffer)
    ensures var refs' := SetRefs(t, refs, key, value, buffer);
            && Reads(Insert(t, key, value), refs', buffers)
            && (Reads(Insert(t, key, value), refs', buffers[buffer := later]) <==>
                Search(t, key).None? || Chars(later) == Some(value))
  {
    hide Ascending, Insert, Search, Balanced, SetRefs, ReadsAt;
    var refs' := SetRefs(t, refs, key, value, buffer);
    var after := buffers[buffer := later];
    forall k ensures ReadsAt(Insert(t, key, value), refs', buffers, k) {
      SetReadsAt(t, refs, buffers, key, value, buffer, later, k);
    }
    forall k ensures ReadsAt(Insert(t, key, value), refs', after, k) <==> k != key || Search(t, key).None? || Chars(later) == Some(value) {
      SetReadsAt(t, refs, buffers, key, value, buffer, later, k);
    }
    if Reads(Insert(t, key, value), refs', after) { assert ReadsAt(Insert(t, key, value), refs', after, key); }
  }

  lemma SetReadsAt(t: Tree, refs: map<Text, Ref>, buffers: map<int, seq<bv8>>, key: Text, value: Text, buffer: int, later: seq<bv8>, k: Text)
    requires Balanced(t) && Ascending(InOrder(t)) && IsText(value) && ReadsAt(t, refs, buffers, k)
    requires buffer in buffers && Chars(buffers[buffer]) == Some(value) && (k in refs ==> refs[k] != Callers(buffer))
    ensures var refs' := SetRefs(t, refs, key, value, buffer);
            && ReadsAt(Insert(t, key, value), refs', buffers, k)
            && (ReadsAt(Insert(t, key, value), refs', buffers[buffer := later], k) <==>
                k != key || Search(t, key).None? || Chars(later) == Some(value))
  {
    hide Ascending, Insert, Search, Balanced, SetRefs, Chars, IsText;
    SetRefsIs(t, refs, key, value, buffer);
    CharsUpTo(value, 0);
    SearchAfterInsert(t, key, value, k);
  }

  /** After an update everything reads as the values say exactly if the key is not in the tree, or the byte behind the copied
      value happens to be zero. */
  lemma UpdateReads(t: Tree, refs: map<Text, Ref>, buffers: map<int, seq<bv8>>, key: Text, value: Text, junk: bv8)
    requires Balanced(t) && Ascending(InOrder(t)) && IsText(value) && Reads(t, refs, buffers)
    ensures Reads(Update(t, key, value), UpdateRefs(t, refs, key, value, junk), buffers) <==> Search(t, key).None? || junk == 0
  {
    hide Ascending, Update, Search, Balanced, UpdateRefs, Chars, IsText;
    UpdateRefsIs(t, refs, key, value, junk);
    CharsUpTo(value, junk);
    var refs' := UpdateRefs(t, refs, key, value, junk);
    forall k ensures ReadsAt(Update(t, key, value), refs', buffers, k) <==> k != key || Search(t, key).None? || junk == 0 {
      SearchAfterUpdate(t, key, value, k);
      assert ReadsAt(t, refs, buffers, k);
    }
    assert Reads(Update(t, key, value), refs', buffers) ==> ReadsAt(Update(t, key, value), refs', buffers, key);
  }
}
