/** The FIFO list of shm_list.h: a ring of handles through a head node, in place. */
module ShmList {
  import opened ShmModel
  import opened ShmInvariant

  /** The handle that follows position k; the ring closes at the head. */
  function After(head: int, order: seq<int>, k: int): int {
    if 0 <= k + 1 < |order| then order[k + 1] else head
  }

  function Prior(head: int, order: seq<int>, k: int): int {
    if 0 <= k - 1 < |order| then order[k - 1] else head
  }

  /** The links at position k agree with the order. */
  ghost predicate LinkedAt(prev: map<int, int>, next: map<int, int>, head: int, order: seq<int>, k: int)
    requires 0 <= k < |order|
  {
    && order[k] in prev && order[k] in next
    && next[order[k]] == After(head, order, k) && prev[order[k]] == Prior(head, order, k)
  }

  ghost predicate Linked(prev: map<int, int>, next: map<int, int>, head: int, order: seq<int>) {
    && NoDup(order) && head !in order
    && head in prev && head in next && next[head] == After(head, order, -1) && prev[head] == Prior(head, order, |order|)
    && (forall k :: 0 <= k < |order| ==> LinkedAt(prev, next, head, order, k))
  }

  lemma LinkedAppend(prev: map<int, int>, next: map<int, int>, head: int, order: seq<int>, h: int)
    requires Linked(prev, next, head, order) && h !in order && h != head
    ensures prev[head] in next || prev[head] == head
    ensures Linked(prev[h := prev[head]][head := h], next[h := head][prev[head] := h], head, order + [h])
  {
    var all, n := order + [h], |order|;
    var prev', next' := prev[h := prev[head]][head := h], next[h := head][prev[head] := h];
    if n > 0 { assert LinkedAt(prev, next, head, order, n - 1); }
    assert NoDup(all) by {
      forall j, k | 0 <= j < k < |all| ensures all[j] != all[k] {
        if k == n { assert order[j] in order; }
      }
    }
    forall k | 0 <= k < |all| ensures LinkedAt(prev', next', head, all, k) {
      if k < n { assert LinkedAt(prev, next, head, order, k) && order[k] in order; }
    }
  }

  /** Closing the gap around a node takes exactly this node out, wherever it stands. */
  lemma LinkedWithout(prev: map<int, int>, next: map<int, int>, head: int, order: seq<int>, k: nat)
    requires Linked(prev, next, head, order) && k < |order|
    ensures order[k] in prev && order[k] in next && prev[order[k]] in next && next[order[k]] in prev
    ensures order[k] !in Without(order, k) && next[order[k]] != order[k]
    ensures Linked(prev[next[order[k]] := prev[order[k]]], next[prev[order[k]] := next[order[k]]], head, Without(order, k))
  {
    var h, rest := order[k], Without(order, k);
    assert LinkedAt(prev, next, head, order, k) && h in order;
    var p, n := prev[h], next[h];
    var prev', next' := prev[n := p], next[p := n];
    if k > 0 { assert LinkedAt(prev, next, head, order, k - 1); }
    if k + 1 < |order| { assert LinkedAt(prev, next, head, order, k + 1); }
    forall j | 0 <= j < |rest| ensures rest[j] == order[if j < k then j else j + 1] && rest[j] in order { WithoutIndex(order, k, j); }
    forall j | 0 <= j < |rest| ensures LinkedAt(prev', next', head, rest, j) {
      assert LinkedAt(prev, next, head, order, if j < k then j else j + 1);
      GapLinked(prev, next, head, order, k, j);
    }
    GapHead(prev, next, head, order, k);
  }

  lemma GapLinked(prev: map<int, int>, next: map<int, int>, head: int, order: seq<int>, k: nat, j: nat)
    requires Linked(prev, next, head, order) && k < |order| && j < |order| - 1
    requires LinkedAt(prev, next, head, order, k)
    ensures LinkedAt(prev[next[order[k]] := prev[order[k]]], next[prev[order[k]] := next[order[k]]], head, Without(order, k), j)
  {
    var i := if j < k then j else j + 1;
    assert LinkedAt(prev, next, head, order, i) && order[i] in order;
  }

  lemma GapHead(prev: map<int, int>, next: map<int, int>, head: int, order: seq<int>, k: nat)
    requires Linked(prev, next, head, order) && k < |order|
    requires LinkedAt(prev, next, head, order, k)
    ensures var p, n := prev[order[k]], next[order[k]];
            next[p := n][head] == After(head, Without(order, k), -1) && prev[n := p][head] == Prior(head, Without(order, k), |order| - 1)
  {
    assert order[0] in order && order[|order| - 1] in order;
  }

  class FifoList {
    const head: int
    var prev: map<int, int>
    var next: map<int, int>
    ghost var order: seq<int>

    ghost predicate Valid()
      reads this
    {
      Linked(prev, next, head, order) && forall k :: 0 <= k < |order| ==> order[k] > 0
    }

    constructor (head: int)
      requires head > 0
      ensures Valid() && order == [] && this.head == head
    {
      this.head := head;
      prev, next, order := map[head := head], map[head := head], [];
    }

    /** Empties the list, whatever the links were. */
    method Init()
      modifies this
      ensures Valid() && order == []
    {
      prev := prev[head := head];
      next := next[head := head];
      order := [];
    }

    method AddTail(h: int)
      requires Valid() && h !in order && h != head && h > 0
      modifies this
      ensures Valid() && order == old(order) + [h]
    {
      LinkedAppend(prev, next, head, order, h);
      var last := prev[head];
      next := next[h := head];
      prev := prev[h := last];
      next := next[last := h];
      prev := prev[head := h];
      order := order + [h];
    }

    /** Takes a node out of the list and links it to itself; a node that links to itself already is left alone. */
    method Delete(h: int, ghost k: nat)
      requires Valid() && (h in order || (h != head && h in next && next[h] == h)) && (h in order ==> k < |order| && order[k] == h)
      modifies this
      ensures Valid() && order == if h in old(order) then Without(old(order), k) else old(order)
      ensures h in old(order) ==> h in next && h in prev && next[h] == h && prev[h] == h
    {
      if h in order { LinkedWithout(prev, next, head, order, k); }
      if next[h] == h { return; }
      next := next[prev[h] := next[h]];
      prev := prev[next[h] := prev[h]];
      ghost var rest := Without(order, k);
      LinkedDetach(prev, next, head, rest, h);
      next := next[h := h];
      prev := prev[h := h];
      order := rest;
    }

    method MoveTail(h: int, ghost k: nat)
      requires Valid() && k < |order| && order[k] == h
      modifies this
      ensures Valid() && order == Without(old(order), k) + [h]
    {
      LinkedWithout(prev, next, head, order, k);
      assert h in order;
      next := next[prev[h] := next[h]];
      prev := prev[next[h] := prev[h]];
      ghost var rest := Without(order, k);
      LinkedAppend(prev, next, head, rest, h);
      var last := prev[head];
      next := next[h := head];
      prev := prev[h := last];
      next := next[last := h];
      prev := prev[head := h];
      order := rest + [h];
    }

    method Empty() returns (empty: bool)
      requires Valid()
      ensures empty <==> order == []
    {
      empty := next[head] == head;
    }

    method First() returns (h: int)
      requires Valid()
      ensures h == if order == [] then -1 else order[0]
    {
      if next[head] == head { return -1; }
      return next[head];
    }

    method NextOf(h: int, ghost k: nat) returns (n: int)
      requires Valid() && k < |order| && order[k] == h
      ensures n == if k + 1 < |order| then order[k + 1] else -1
    {
      assert LinkedAt(prev, next, head, order, k);
      if next[h] == head { return -1; }
      return next[h];
    }

    method Count() returns (n: int)
      requires Valid()
      ensures n == |order|
    {
      n := 0;
      var h := next[head];
      while h != head
        invariant 0 <= n <= |order| && h == After(head, order, n - 1)
        decreases |order| - n
      {
        assert LinkedAt(prev, next, head, order, n);
        n := n + 1;
        h := next[h];
      }
    }
  }

  /** Links of a node outside the list do not matter. */
  lemma LinkedDetach(prev: map<int, int>, next: map<int, int>, head: int, order: seq<int>, h: int)
    requires Linked(prev, next, head, order) && h !in order && h != head
    ensures Linked(prev[h := h], next[h := h], head, order)
  {
    var prev', next' := prev[h := h], next[h := h];
    forall k | 0 <= k < |order| ensures LinkedAt(prev', next', head, order, k) {
      assert LinkedAt(prev, next, head, order, k) && order[k] in order;
    }
  }
}
