/** What a record enumeration traverses and in which order: the ids of
    the records a filter accepts, ordered by a comparator (or by ascending
    id without one), and the cursor rules of `nextRecord` and
    `previousRecord`. */
module RecordOrder {
  import opened JavaLang
  import RecordTable

  /** A `RecordFilter`: whether a record's data belongs to the enumeration. */
  type Filter = seq<int8> -> bool

  /** The answers of a `RecordComparator`: PRECEDES, EQUIVALENT, FOLLOWS. */
  datatype Order = Precedes | Equivalent | Follows

  /** A `RecordComparator` over two records' data. */
  type Comparator = (seq<int8>, seq<int8>) -> Order

  function Flip(o: Order): Order {
    match o
    case Precedes => Follows
    case Equivalent => Equivalent
    case Follows => Precedes
  }

  /** A comparator that answers each pair consistently both ways round, as
      the `RecordComparator` contract asks. */
  ghost predicate Consistent(cmp: Comparator) {
    forall x, y :: cmp(x, y) == Flip(cmp(y, x))
  }

  /** A missing filter accepts every record. */
  predicate Accepts(filter: Option<Filter>, data: seq<int8>) {
    filter.None? || filter.value(data)
  }

  predicate Ascending(s: seq<int>) {
    forall i, j :: 0 <= i < j < |s| ==> s[i] < s[j]
  }

  predicate Distinct(s: seq<int>) {
    forall i, j :: 0 <= i < j < |s| ==> s[i] != s[j]
  }

  /** The ids in `[lo, hi)` of records the filter accepts, ascending. */
  function Matching(records: map<int, seq<int8>>, filter: Option<Filter>, lo: int, hi: int): (r: seq<int>)
    decreases hi - lo
    ensures forall i :: 0 <= i < |r| ==> r[i] in records && lo <= r[i] < hi
    ensures forall id :: id in r <==> id in records && lo <= id < hi && Accepts(filter, records[id])
    ensures Ascending(r)
  {
    if lo >= hi then []
    else
      var rest := Matching(records, filter, lo + 1, hi);
      (if lo in records && Accepts(filter, records[lo]) then [lo] else []) + rest
  }

  /** `a` comes before `b`: the comparator says so, or calls them
      equivalent and `a` is the older record. */
  predicate Before(records: map<int, seq<int8>>, cmp: Comparator, a: int, b: int)
    requires a in records && b in records
  {
    var o := cmp(records[a], records[b]);
    o == Precedes || (o == Equivalent && a < b)
  }

  predicate AllIn(records: map<int, seq<int8>>, s: seq<int>) {
    forall i :: 0 <= i < |s| ==> s[i] in records
  }

  /** Each id comes before the next one. */
  predicate Sorted(records: map<int, seq<int8>>, cmp: Comparator, s: seq<int>)
    requires AllIn(records, s)
  {
    forall i :: 0 <= i < |s| - 1 ==> Before(records, cmp, s[i], s[i + 1])
  }

  /** For two different records, one comes before the other. */
  lemma BeforeTotal(records: map<int, seq<int8>>, cmp: Comparator, a: int, b: int)
    requires Consistent(cmp) && a in records && b in records && a != b
    ensures Before(records, cmp, a, b) || Before(records, cmp, b, a)
  {
    assert cmp(records[b], records[a]) == Flip(cmp(records[a], records[b]));
  }

  /** `s` with `x` placed before the first id it comes before. */
  function Insert(records: map<int, seq<int8>>, cmp: Comparator, x: int, s: seq<int>): (r: seq<int>)
    requires x in records && AllIn(records, s)
    ensures AllIn(records, r) && multiset(r) == multiset(s) + multiset{x}
    ensures |r| > 0 && (r[0] == x || (s != [] && r[0] == s[0]))
    ensures Consistent(cmp) && Sorted(records, cmp, s) && x !in s ==> Sorted(records, cmp, r)
  {
    if s == [] then [x]
    else if Before(records, cmp, x, s[0]) then [x] + s
    else
      var rest := Insert(records, cmp, x, s[1..]);
      assert s == [s[0]] + s[1..];
      assert Consistent(cmp) && x !in s ==> Before(records, cmp, s[0], x) by {
        if Consistent(cmp) && x !in s {
          BeforeTotal(records, cmp, x, s[0]);
        }
      }
      [s[0]] + rest
  }

  /** Insertion sort by the comparator. */
  function Sort(records: map<int, seq<int8>>, cmp: Comparator, s: seq<int>): (r: seq<int>)
    requires AllIn(records, s)
    ensures AllIn(records, r) && multiset(r) == multiset(s)
    ensures Consistent(cmp) && Distinct(s) ==> Sorted(records, cmp, r)
  {
    if s == [] then []
    else
      var rest := Sort(records, cmp, s[1..]);
      assert s == [s[0]] + s[1..];
      assert Distinct(s) ==> s[0] !in rest by {
        assert s[0] in rest <==> s[0] in multiset(rest);
        assert Distinct(s) ==> s[0] !in multiset(s[1..]);
      }
      Insert(records, cmp, s[0], rest)
  }

  /** The ids an enumeration traverses over a table whose ids all lie below
      `nextId`. */
  function Enumerate(records: map<int, seq<int8>>, nextId: int,
                     filter: Option<Filter>, comparator: Option<Comparator>): seq<int>
  {
    var m := Matching(records, filter, 1, nextId);
    if comparator.None? then m else Sort(records, comparator.value, m)
  }

  /** An enumeration holds every accepted record exactly once: in ascending
      id order without a comparator, and in the comparator's order (ties by
      id) with one. */
  lemma EnumerationOrder(records: map<int, seq<int8>>, nextId: int,
                         filter: Option<Filter>, comparator: Option<Comparator>)
    requires forall id :: id in records ==> 1 <= id < nextId
    ensures var e := Enumerate(records, nextId, filter, comparator);
      && AllIn(records, e)
      && (forall id :: id in e <==> id in records && Accepts(filter, records[id]))
      && Distinct(e)
      && (comparator.None? ==> Ascending(e))
      && (comparator.Some? && Consistent(comparator.value) ==> Sorted(records, comparator.value, e))
  {
    var m := Matching(records, filter, 1, nextId);
    if comparator.Some? {
      var e := Sort(records, comparator.value, m);
      assert forall id :: id in e <==> id in multiset(m);
      DistinctByMultiset(m, e);
    }
  }

  lemma DistinctByMultiset(a: seq<int>, b: seq<int>)
    requires Ascending(a) && multiset(a) == multiset(b)
    ensures Distinct(b)
  {
    forall x | x in multiset(a) ensures multiset(a)[x] == 1 {
      AscendingCount(a, x);
    }
    forall i, j | 0 <= i < j < |b| ensures b[i] != b[j] {
      if b[i] == b[j] {
        RepeatCounts(b, i, j);
        assert false;
      }
    }
  }

  lemma RepeatCounts(b: seq<int>, i: int, j: int)
    requires 0 <= i < j < |b| && b[i] == b[j]
    ensures multiset(b)[b[i]] >= 2
  {
    assert b == b[..i] + [b[i]] + b[i + 1..j] + [b[j]] + b[j + 1..];
  }

  lemma {:induction false} AscendingCount(a: seq<int>, x: int)
    requires Ascending(a) && x in multiset(a)
    ensures multiset(a)[x] == 1
  {
    assert a == [a[0]] + a[1..];
    if a[0] == x {
      assert x !in a[1..];
    } else {
      AscendingCount(a[1..], x);
    }
  }

  // ----- the cursor -----

  /** Where an enumeration stands: before its first call, or at the index
      of the record it returned last. */
  datatype Cursor = Unstarted | At(index: int)

  predicate CursorIn(c: Cursor, n: int) {
    c.At? ==> 0 <= c.index < n
  }

  /** The index `nextRecord` returns: the first one on the first call, then
      the one after the last returned; none past the end. */
  function NextPosition(c: Cursor, n: int): (r: Option<int>)
    requires CursorIn(c, n)
    ensures r.Some? ==> 0 <= r.value < n
    ensures r.None? <==> (c.Unstarted? && n <= 0) || (c.At? && c.index == n - 1)
  {
    match c
    case Unstarted => if n > 0 then Some(0) else None
    case At(i) => if i + 1 < n then Some(i + 1) else None
  }

  /** The index `previousRecord` returns: the last one on the first call,
      then the one before the last returned; none before the start. */
  function PrevPosition(c: Cursor, n: int): (r: Option<int>)
    requires CursorIn(c, n)
    ensures r.Some? ==> 0 <= r.value < n
    ensures r.None? <==> (c.Unstarted? && n <= 0) || (c.At? && c.index == 0)
  {
    match c
    case Unstarted => if n > 0 then Some(n - 1) else None
    case At(i) => if i > 0 then Some(i - 1) else None
  }

  /** The indices `k` calls of `nextRecord` return, from cursor `c`, until
      the enumeration runs out. */
  function Forward(c: Cursor, n: int, k: nat): seq<int>
    requires CursorIn(c, n)
    decreases k
  {
    var p := NextPosition(c, n);
    if k == 0 || p.None? then [] else [p.value] + Forward(At(p.value), n, k - 1)
  }

  /** The indices `k` calls of `previousRecord` return, from cursor `c`. */
  function Backward(c: Cursor, n: int, k: nat): seq<int>
    requires CursorIn(c, n)
    decreases k
  {
    var p := PrevPosition(c, n);
    if k == 0 || p.None? then [] else [p.value] + Backward(At(p.value), n, k - 1)
  }

  /** From index `i`, `nextRecord` visits `i + 1, i + 2, ...` up to the
      last record. */
  lemma {:induction false} ForwardFrom(i: int, n: int, k: nat)
    requires -1 <= i < n
    decreases k
    ensures var c := if i == -1 then Unstarted else At(i);
      var m := if k < n - 1 - i then k else n - 1 - i;
      Forward(c, n, k) == seq(m, j => i + 1 + j)
  {
    var c := if i == -1 then Unstarted else At(i);
    if k > 0 && i + 1 < n {
      ForwardFrom(i + 1, n, k - 1);
    }
  }

  /** Fresh enumerations: `k` calls of `nextRecord` return the first `k`
      records in order; `k` calls of `previousRecord` return the last `k`
      records, last one first. */
  lemma FreshWalks(n: nat, k: nat)
    ensures var m := if k < n then k else n;
      && Forward(Unstarted, n, k) == seq(m, j => j)
      && Backward(Unstarted, n, k) == seq(m, j => n - 1 - j)
  {
    ForwardFrom(-1, n, k);
    BackwardFrom(n, n, k);
  }

  /** From index `i`, `previousRecord` visits `i - 1, i - 2, ...` down to
      the first record. */
  lemma {:induction false} BackwardFrom(i: int, n: int, k: nat)
    requires 0 <= i <= n
    decreases k
    ensures var c := if i == n then Unstarted else At(i);
      var m := if k < i then k else i;
      Backward(c, n, k) == seq(m, j => i - 1 - j)
  {
    var c := if i == n then Unstarted else At(i);
    if k > 0 && i > 0 {
      BackwardFrom(i - 1, n, k - 1);
    }
  }

  /** Stepping back after stepping forward returns the record before the
      one just returned, and stepping forward after stepping back the one
      after it. */
  lemma StepsReverse(i: int, n: int)
    requires 0 <= i < n
    ensures NextPosition(At(i), n).Some? ==> PrevPosition(At(NextPosition(At(i), n).value), n) == Some(i)
    ensures PrevPosition(At(i), n).Some? ==> NextPosition(At(PrevPosition(At(i), n).value), n) == Some(i)
  {
  }

  /** The first index of `x` in `s`. */
  function IndexOf(s: seq<int>, x: int): (i: int)
    requires x in s
    ensures 0 <= i < |s| && s[i] == x
    ensures forall j :: 0 <= j < i ==> s[j] != x
  {
    if s[0] == x then 0 else 1 + IndexOf(s[1..], x)
  }

  /** The last position at or before `i` whose id is still in `after`,
      or -1 when every id up to `i` is gone. */
  function LastSurviving(before: seq<int>, i: int, after: seq<int>): (j: int)
    requires -1 <= i < |before|
    decreases i + 1
    ensures -1 <= j <= i
    ensures j >= 0 ==> before[j] in after
    ensures forall k :: j < k <= i ==> before[k] !in after
  {
    if i < 0 then -1
    else if before[i] in after then i
    else LastSurviving(before, i - 1, after)
  }

  /** The cursor of a live enumeration once its ids change from `before`
      to `after`: on the most recently consumed record that is still
      enumerated (the one returned last, when it survives), and before the
      first record when none of the consumed records survives. */
  function Follow(before: seq<int>, c: Cursor, after: seq<int>): (r: Cursor)
    requires CursorIn(c, |before|)
    ensures CursorIn(r, |after|)
    ensures r.At? <==> c.At? && LastSurviving(before, c.index, after) >= 0
    ensures r.At? ==> after[r.index] == before[LastSurviving(before, c.index, after)]
    ensures c.At? && before[c.index] in after ==> r.At? && after[r.index] == before[c.index]
  {
    if c.Unstarted? then Unstarted
    else
      var j := LastSurviving(before, c.index, after);
      if j < 0 then Unstarted else At(IndexOf(after, before[j]))
  }

  /** `s` without the ids in `gone`, in order: the ids of an enumeration
      after records were deleted. */
  function Without(s: seq<int>, gone: set<int>): (r: seq<int>)
    ensures forall x :: x in r <==> x in s && x !in gone
    ensures Distinct(s) ==> Distinct(r)
  {
    if s == [] then []
    else
      var rest := Without(s[1..], gone);
      assert Distinct(s) ==> s[0] !in s[1..];
      (if s[0] in gone then [] else [s[0]]) + rest
  }

  lemma {:induction false} WithoutAppend(a: seq<int>, b: seq<int>, gone: set<int>)
    ensures Without(a + b, gone) == Without(a, gone) + Without(b, gone)
  {
    if a != [] {
      assert (a + b)[1..] == a[1..] + b;
      WithoutAppend(a[1..], b, gone);
    } else {
      assert a + b == b;
    }
  }

  /** The surviving ids of the first `i + 1` positions end with the id at
      `LastSurviving`, and there are none exactly when it is -1. */
  lemma {:induction false} LastOfSurvivors(before: seq<int>, i: int, gone: set<int>)
    requires -1 <= i < |before|
    decreases i + 1
    ensures var p := Without(before[..i + 1], gone);
      var j := LastSurviving(before, i, Without(before, gone));
      && (p == [] <==> j == -1)
      && (p != [] ==> p[|p| - 1] == before[j])
  {
    if i >= 0 {
      assert before[..i + 1] == before[..i] + [before[i]];
      WithoutAppend(before[..i], [before[i]], gone);
      assert Without([before[i]], gone) == (if before[i] in gone then [] else [before[i]]);
      assert before[i] in Without(before, gone) <==> before[i] !in gone;
      LastOfSurvivors(before, i - 1, gone);
    }
  }

  /** Deleting records from a live enumeration keeps what was
      consumed: afterwards the records up to the cursor are exactly the
      consumed ones that survive, and the next record returned is one that
      was not consumed. */
  lemma FollowKeepsConsumed(before: seq<int>, i: int, gone: set<int>)
    requires Distinct(before) && 0 <= i < |before|
    ensures var after := Without(before, gone);
      var r := Follow(before, At(i), after);
      var consumed := if r.At? then after[..r.index + 1] else [];
      && (forall x :: x in consumed <==> x in before[..i + 1] && x !in gone)
      && (NextPosition(r, |after|).Some? ==>
            after[NextPosition(r, |after|).value] !in before[..i + 1])
  {
    var after := Without(before, gone);
    var p, q := Survivors(before, i, gone);
    var r := Follow(before, At(i), after);
    assert r.At? <==> p != [];
    if p != [] {
      LastOfPrefix(after, p, q);
      assert r.index == |p| - 1;
      assert after[..r.index + 1] == p;
    }
    if NextPosition(r, |after|).Some? {
      assert NextPosition(r, |after|).value == |p|;
      assert after[|p|] == q[0];
      LaterNotEarlier(before, i, q[0]);
    }
  }

  /** Without a comparator, deleting records leaves the remaining
      enumeration in its old order: it is the old one minus the deleted
      ids. */
  lemma {:induction false} MatchingAfterDelete(records: map<int, seq<int8>>, gone: set<int>,
                                               filter: Option<Filter>, lo: int, hi: int)
    decreases hi - lo
    ensures Matching(records - gone, filter, lo, hi) == Without(Matching(records, filter, lo, hi), gone)
  {
    if lo < hi {
      var kept := records - gone;
      var tail := Matching(records, filter, lo + 1, hi);
      var head := if lo in records && Accepts(filter, records[lo]) then [lo] else [];
      var keptHead := if lo in kept && Accepts(filter, kept[lo]) then [lo] else [];
      assert Matching(records, filter, lo, hi) == head + tail;
      assert Matching(kept, filter, lo, hi) == keptHead + Matching(kept, filter, lo + 1, hi);
      assert keptHead == Without(head, gone);
      MatchingAfterDelete(records, gone, filter, lo + 1, hi);
      WithoutAppend(head, tail, gone);
    }
  }

  /** The enumeration after deletions splits into the surviving consumed
      ids and the surviving rest. */
  lemma Survivors(before: seq<int>, i: int, gone: set<int>) returns (p: seq<int>, q: seq<int>)
    requires Distinct(before) && 0 <= i < |before|
    ensures p == Without(before[..i + 1], gone) && q == Without(before[i + 1..], gone)
    ensures Without(before, gone) == p + q && Distinct(p + q)
    ensures forall x :: x in q ==> x in before[i + 1..]
    ensures var j := LastSurviving(before, i, Without(before, gone));
      && (p == [] <==> j == -1)
      && (p != [] ==> p[|p| - 1] == before[j])
  {
    p, q := Without(before[..i + 1], gone), Without(before[i + 1..], gone);
    assert before == before[..i + 1] + before[i + 1..];
    WithoutAppend(before[..i + 1], before[i + 1..], gone);
    LastOfSurvivors(before, i, gone);
  }

  lemma LastOfPrefix(s: seq<int>, p: seq<int>, q: seq<int>)
    requires s == p + q && p != [] && Distinct(s)
    ensures IndexOf(s, p[|p| - 1]) == |p| - 1
  {
    assert s[|p| - 1] == p[|p| - 1];
  }

  /** In a sequence without repeats, an id after position `i` is none of
      those up to `i`. */
  lemma LaterNotEarlier(s: seq<int>, i: int, x: int)
    requires Distinct(s) && 0 <= i < |s| && x in s[i + 1..]
    ensures x !in s[..i + 1]
  {
  }

  /** After `addRecord` of data the filter accepts, the enumeration of the
      table holds the new record. */
  lemma LiveSeesAdded(t: RecordTable.Table, data: seq<int8>,
                      filter: Option<Filter>, comparator: Option<Comparator>)
    requires RecordTable.Valid(t) && Accepts(filter, data)
    ensures var added := RecordTable.Add(t, data);
      t.nextId in Enumerate(added.records, added.nextId, filter, comparator)
  {
    var added := RecordTable.Add(t, data);
    EnumerationOrder(added.records, added.nextId, filter, comparator);
  }
}
