/** Listings of cached entries: what the patterns of shm_ht_to_array_ex select, and its pages. */
module ShmArray {
  import opened ShmModel

  datatype MatchKind = Exact | Left | Right | Anywhere | Unknown

  datatype Filter = All | Keys(kind: MatchKind, pattern: Bytes)

  predicate StartsAt(pattern: Bytes, key: Bytes, at: nat) {
    at + |pattern| <= |key| && key[at..at + |pattern|] == pattern
  }

  /** What a pattern selects: the key itself, a prefix, a suffix or any part of it. */
  ghost predicate Matches(filter: Filter, key: Bytes) {
    match filter
    case All => true
    case Keys(Exact, p) => key == p
    case Keys(Left, p) => StartsAt(p, key, 0)
    case Keys(Right, p) => |p| <= |key| && StartsAt(p, key, |key| - |p|)
    case Keys(Anywhere, p) => exists at: nat :: StartsAt(p, key, at)
    case Keys(Unknown, _) => false
  }

  method MatchKey(kind: MatchKind, pattern: Bytes, key: Bytes) returns (matched: bool)
    ensures matched <==> Matches(Keys(kind, pattern), key)
  {
    if |key| < |pattern| { return false; }
    match kind {
      case Exact =>
        matched := |pattern| == |key| && pattern == key[..|pattern|];
      case Left =>
        matched := pattern == key[..|pattern|];
      case Right =>
        matched := pattern == key[|key| - |pattern|..];
        assert key[|key| - |pattern|..] == key[|key| - |pattern|..|key| - |pattern| + |pattern|];
      case Anywhere =>
        var loop, start := |key| - |pattern| + 1, 0;
        while start < loop
          invariant 0 <= start <= loop && forall at: nat :: at < start ==> !StartsAt(pattern, key, at)
        {
          if pattern == key[start..start + |pattern|] { assert StartsAt(pattern, key, start); return true; }
          start := start + 1;
        }
        matched := false;
      case Unknown =>
        matched := false;
    }
  }

  ghost predicate Picked(e: Entry, filter: Filter, now: int) {
    IsValid(e, now) && Matches(filter, e.key)
  }

  /** The unexpired entries whose keys match, oldest first. */
  ghost function Selected(live: seq<Entry>, filter: Filter, now: int): seq<Entry> {
    if live == [] then []
    else (if Picked(live[0], filter, now) then [live[0]] else []) + Selected(live[1..], filter, now)
  }

  /** What is selected, entry by entry and in order. */
  lemma {:induction false} SelectedExactly(a: seq<Entry>, b: seq<Entry>, filter: Filter, now: int)
    ensures Selected(a + b, filter, now) == Selected(a, filter, now) + Selected(b, filter, now)
    ensures |a| == 1 ==>
      Selected(a, filter, now) == if (a[0].value.expires == 0 || a[0].value.expires >= now) && Matches(filter, a[0].key) then a else []
  {
    hide Matches;
    if a == [] {
      assert a + b == b;
    } else {
      assert (a + b)[0] == a[0] && (a + b)[1..] == a[1..] + b;
      SelectedExactly(a[1..], b, filter, now);
    }
  }

  /** What the patterns mean: the whole key, its start, its end, or any part of it. */
  lemma MatchesExactly(p: Bytes, key: Bytes)
    ensures Matches(Keys(Exact, p), key) <==> key == p
    ensures Matches(Keys(Left, p), key) <==> exists after :: key == p + after
    ensures Matches(Keys(Right, p), key) <==> exists before :: key == before + p
    ensures Matches(Keys(Anywhere, p), key) <==> exists before, after :: key == before + p + after
    ensures !Matches(Keys(Unknown, p), key) && Matches(All, key)
  {
    hide StartsAt;
    LeftExactly(p, key);
    RightExactly(p, key);
    AnywhereExactly(p, key);
  }

  lemma LeftExactly(p: Bytes, key: Bytes)
    ensures StartsAt(p, key, 0) <==> exists after :: key == p + after
  {
    if StartsAt(p, key, 0) { assert key == p + key[|p|..]; }
  }

  lemma RightExactly(p: Bytes, key: Bytes)
    ensures |p| <= |key| && StartsAt(p, key, |key| - |p|) <==> exists before :: key == before + p
  {
    if |p| <= |key| && StartsAt(p, key, |key| - |p|) {
      var n := |key| - |p|;
      assert key == key[..n] + p by { assert key[n..n + |p|] == key[n..]; }
    }
  }

  lemma AnywhereExactly(p: Bytes, key: Bytes)
    ensures (exists at: nat :: StartsAt(p, key, at)) <==> exists before, after :: key == before + p + after
  {
    if at: nat :| StartsAt(p, key, at) {
      assert key == key[..at] + p + key[at + |p|..];
    }
    if before, after :| key == before + p + after { PartStarts(p, key, before, after); }
  }

  lemma PartStarts(p: Bytes, key: Bytes, before: Bytes, after: Bytes)
    requires key == before + p + after
    ensures StartsAt(p, key, |before|)
  {
    assert key[|before|..|before| + |p|] == p;
  }

  lemma {:induction false} SelectedLength(live: seq<Entry>, filter: Filter, now: int)
    ensures |Selected(live, filter, now)| <= |live|
  {
    if live != [] { SelectedLength(live[1..], filter, now); }
  }

  lemma SelectedStep(live: seq<Entry>, k: nat, filter: Filter, now: int)
    requires k < |live|
    ensures Selected(live[k..], filter, now) ==
            (if Picked(live[k], filter, now) then [live[k]] else []) + Selected(live[k + 1..], filter, now)
  {
    assert live[k..][1..] == live[k + 1..];
  }

  /** `count` rows (all, if it is not positive) from the given one on. */
  function Page(rows: seq<Entry>, offset: nat, count: int): seq<Entry> {
    if offset >= |rows| then [] else if 0 < count < |rows| - offset then rows[offset..offset + count] else rows[offset..]
  }

  /** A page holds the rows from its offset on, as many as asked for and there are. */
  lemma PageExactly(rows: seq<Entry>, offset: nat, count: int)
    ensures var page := Page(rows, offset, count); var left := if offset < |rows| then |rows| - offset else 0;
            && |page| == (if 0 < count < left then count else left)
            && forall k :: 0 <= k < |page| ==> page[k] == rows[offset + k]
  {
  }

  datatype Row = Row(key: Bytes, value: Value)

  function RowOf(e: Entry): Row { Row(e.key, e.value) }

  function RowsOf(live: seq<Entry>): (rows: seq<Row>)
    ensures |rows| == |live| && forall k :: 0 <= k < |live| ==> rows[k] == RowOf(live[k])
  {
    seq(|live|, k requires 0 <= k < |live| => RowOf(live[k]))
  }

  lemma SelectedNone(live: seq<Entry>, filter: Filter, now: int)
    ensures live[|live|..] == [] && Selected([], filter, now) == []
  {
  }

  lemma TailStep(all: seq<Entry>, i: nat, e: Entry, rest: seq<Entry>)
    requires i <= |all| && all[i..] == [e] + rest
    ensures i < |all| && all[i + 1..] == rest
  {
    assert all[i..][0] == e;
    assert all[i + 1..] == all[i..][1..];
  }

  /** The collected rows are the page, whether the rows or the entries ran out first. */
  lemma PageIs(all: seq<Entry>, offset: nat, count: int, total: nat, from: nat, page: seq<Entry>, rowCount: int)
    requires |all| <= total && from <= offset && from <= |all| && page <= all[from..]
    requires rowCount == (if 0 < count < total - offset then count else total - offset) && 0 < rowCount
    requires |page| <= rowCount && (|page| < rowCount ==> page == all[from..])
    requires from < offset ==> all[from..] == []
    ensures page == Page(all, offset, count)
  {
    if from == offset {
      assert page == all[offset..offset + |page|];
    }
  }
}
