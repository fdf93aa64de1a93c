/** A run of the code as written in which recycling reports success and the allocation it was for still fails. */
module ShmCounterexample {
  import opened ShmModel
  import opened ShmInvariant
  import opened ShmTheorems

  /** Two stripings of 136 bytes, removal as coded. */
  const C := Config(100, 64, -1, true, 0, 8, 100, 136, 2, 1, 272, false)

  const SMALL := Value([], 0, 0)

  function Big(): (v: Value)
    ensures |v.data| == 64 && v.expires == 0
  {
    Value(seq(64, i => 0), 0, 0)
  }

  function Key(i: bv8): Bytes { [i] }

  function Small(i: bv8): Entry { Entry(Key(i), SMALL, 0, 0, 0, 72) }

  function Large(i: bv8): Entry { Entry(Key(i), Big(), 0, 1, 136, 136) }

  function First(used: int, fails: int): Striping { Striping(0, fails, false, 0, used, 0, used, 136) }

  function Second(used: int, fails: int): Striping { Striping(0, fails, false, 0, used, 136, 136 + used, 272) }

  const S0 := State([], [First(0, 0), Second(0, 0)], [0, 1], [], 1, 272, 0, 0, 0, 0)

  /** The first striping holds 72 bytes. */
  const S1 := State([Small(1)], [First(72, 0), Second(0, 0)], [0, 1], [], 1, 272, 72, 1, 0, 1)

  /** The second striping is full; the first one has been passed over. */
  const S2 := State([Small(1), Large(2)], [First(72, 1), Second(136, 0)], [0, 1], [], 1, 272, 208, 2, 64, 2)

  /** The walk for the third key has kept the first striping, removed the second behind it, and lost it. */
  const S2Lost := State([Small(1), Large(2)], [First(72, 2), Second(136, 1)], [0], [], 1, 272, 208, 2, 64, 2)

  /** The first striping has been emptied and taken again. */
  const S3 := State([Large(2), Small(3)], [First(72, 0), Second(136, 1)], [0], [], 1, 272, 208, 2, 64, 2)

  lemma Sizes()
    ensures EntrySize(1, 0) == 72 && EntrySize(1, 64) == 136
  {
  }

  lemma StartIs()
    ensures ConfigOk(C) && Start(C) == S0 && Shape(S0)
  {
    assert Indices(0, 2) == [0, 1];
    assert FreshStripings(C, 0, 2) == [First(0, 0), Second(0, 0)];
    assert [] + FreshStripings(C, 0, 2) == FreshStripings(C, 0, 2);
    StartOk(C);
  }

  lemma FirstSet()
    ensures Shape(S0) && Set(C, S0, Key(1), SMALL, 0) == (OK, S1)
  {
    hide RecycleFrom, MakeRoom, Sum, FreeAt, EntrySize;
    Sizes();
    assert S0.st[0 := Bump(S0.st[0], 72, 0)] == S1.st;
    assert [] + [0, 1] == [0, 1];
    assert Walk(C, S0.st, [], [0, 1], [], 72, 0) == Walked(0, S1.st, [0, 1], []);
    FindOther([], Key(1));
    assert [] + [Small(1)] == [Small(1)];
  }

  /** The second key's memory is taken, the entry not yet in the list. */
  const S1Taken := S1.(st := S2.st, usedEntry := 208)

  lemma SecondWalk()
    ensures Shape(S1) && DoAlloc(C, S1, 136, 0) == (Place(0, 1, 136, 136), S1Taken)
  {
    var st := [First(72, 1), Second(0, 0)];
    assert S1.st[0 := S1.st[0].(failTimes := 1)] == st;
    assert st[1 := Bump(st[1], 136, 0)] == S2.st;
    assert [0, 1][1..] == [1];
    assert Walk(C, st, [0], [1], [], 136, 0) == Walked(1, S2.st, [0] + [1], []);
    assert [] + [0] == [0] && [0] + [1] == [0, 1];
  }

  lemma SecondSet()
    ensures Shape(S1) && Set(C, S1, Key(2), Big(), 0) == (OK, S2)
  {
    hide Walk, DoAlloc, RecycleFrom, MakeRoom, Sum, FreeAt, EntrySize;
    Sizes();
    SecondWalk();
    assert Alloc(C, S1, 136, 0) == (Place(0, 1, 136, 136), S1Taken);
    FindOther(S1.live, Key(2));
    assert S1.live + [Large(2)] == S2.live;
  }

  lemma FindOther(live: seq<Entry>, key: Bytes)
    requires forall k :: 0 <= k < |live| ==> live[k].key != key
    ensures Find(live, key) == |live|
  {
  }

  /** The allocation for the third key: no room in the first striping, which stays; the second one is exhausted and lost. */
  lemma LosingWalk()
    ensures Shape(S2) && DoAlloc(C, S2, 72, 0) == (NoPlace, S2Lost)
  {
    var st := [First(72, 2), Second(136, 0)];
    assert S2.st[0 := S2.st[0].(failTimes := 2)] == st;
    assert st[1 := st[1].(failTimes := 1)] == S2Lost.st;
    assert [0, 1][1..] == [1] && [1][1..] == [] && [] + [0] == [0];
    assert Walk(C, S2Lost.st, [0], [], [], 72, 0) == Walked(-1, S2Lost.st, [0], []);
    assert Walk(C, st, [0], [1], [], 72, 0) == Walked(-1, S2Lost.st, [0], []);
  }

  /** After the oldest entry has gone, the first striping is empty. */
  const S2Freed := State([Large(2)], [First(0, 0), Second(136, 1)], [0], [], 1, 272, 136, 1, 64, 1)

  lemma RecycleOldest()
    ensures Shape(S2Lost) && Recycle(C, S2Lost, 0, -1) == (OK, S2Freed)
  {
    assert Without(S2Lost.live, 0) == [Large(2)];
    assert S2Lost.st[0 := First(0, 0)] == S2Freed.st;
    FreeShape(S2Lost, 0);
    assert FreeAt(S2Lost, 0) == (S2Freed, true);
  }

  /** The third key's memory is taken, the entry not yet in the list. */
  const S2Taken := S2Freed.(st := S3.st, usedEntry := 208)

  lemma ThirdWalk()
    ensures Shape(S2Freed) && DoAlloc(C, S2Freed, 72, 0) == (Place(0, 0, 0, 72), S2Taken)
  {
    assert S2Freed.st[0 := Bump(S2Freed.st[0], 72, 0)] == S3.st;
    assert [] + [0] == [0];
    assert Walk(C, S2Freed.st, [], [0], [], 72, 0) == Walked(0, S3.st, [0], []);
  }

  lemma ThirdSet()
    ensures Shape(S2) && Set(C, S2, Key(3), SMALL, 0) == (OK, S3)
  {
    hide Walk, DoAlloc, RecycleFrom, Sum, FreeAt, EntrySize, Rearrange, Aged;
    Sizes();
    LosingWalk();
    RecycleOldest();
    ThirdWalk();
    assert MakeRoom(C, S2Lost, 0) == (OK, S2Freed);
    assert Alloc(C, S2, 72, 0) == (Place(0, 0, 0, 72), S2Taken);
    FindOther(S2Freed.live, Key(3));
    assert S2Freed.live + [Small(3)] == S3.live;
  }

  /** The second striping is empty again, and in no queue. */
  const S3Freed := State([Small(3)], [First(72, 0), Second(0, 0)], [0], [], 1, 272, 72, 1, 0, 1)

  lemma RecycleLost()
    ensures Shape(S3) && Recycle(C, S3, 0, -1) == (OK, S3Freed)
  {
    assert Without(S3.live, 0) == [Small(3)];
    assert S3.st[1 := Second(0, 0)] == S3Freed.st;
    FreeShape(S3, 0);
    assert FreeAt(S3, 0) == (S3Freed, true);
  }

  lemma NoRoom()
    ensures Shape(S3Freed) && DoAlloc(C, S3Freed, 72, 0).0 == NoPlace
  {
    var st := [First(72, 1), Second(0, 0)];
    assert S3Freed.st[0 := S3Freed.st[0].(failTimes := 1)] == st;
    assert [0][1..] == [] && [] + [0] == [0];
    assert Walk(C, st, [0], [], [], 72, 0).found == -1;
  }

  /** Three sets lead to a state in which recycling returns 0 and the allocation of a small entry after it fails. */
  lemma RecycleThenAllocFails() returns (steps: seq<Step>)
    ensures ConfigOk(C) && C.recycleValid && 72 <= C.stripingSize && Reached(C, steps, S3)
    ensures Shape(S3) && Recycle(C, S3, 0, -1).0 == OK
    ensures Shape(Recycle(C, S3, 0, -1).1) && DoAlloc(C, Recycle(C, S3, 0, -1).1, 72, 0).0.NoPlace?
  {
    hide Set, Recycle, DoAlloc, Shape, Start;
    StartIs();
    FirstSet();
    SecondSet();
    ThirdSet();
    RecycleLost();
    NoRoom();
    var a, b, d := SetStep(Key(1), SMALL, 0), SetStep(Key(2), Big(), 0), SetStep(Key(3), SMALL, 0);
    Extend([], S0, a, S1);
    Extend([a], S1, b, S2);
    ShapeOfS3();
    Extend([a, b], S2, d, S3);
    steps := [a, b, d];
    assert [] + [a] == [a] && [a] + [b] == [a, b] && [a, b] + [d] == steps;
  }

  lemma ShapeOfS3()
    ensures Shape(S3)
  {
  }

  lemma Extend(steps: seq<Step>, s: State, step: Step, t: State)
    requires ConfigOk(C) && Reached(C, steps, s) && Shape(s) && t == Apply(C, s, step)
    ensures Reached(C, steps + [step], t)
  {
    var all := steps + [step];
    assert all[..|all| - 1] == steps && all[|all| - 1] == step;
  }
}
