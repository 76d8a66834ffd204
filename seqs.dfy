/**
 * Sequence kernels: order-preserving filter, first-occurrence de-duplication
 * (JavaScript `[...new Set(xs)]`), removal at an index (`splice(i, 1)`)
 * and a stable insertion sort (Python `sorted`, JavaScript `Array.sort`).
 */
module Seqs {

  // ---------------------------------------------------------------------
  // Filter
  // ---------------------------------------------------------------------

  /** The elements of `s` satisfying `p`, in their original order. */
  function Filter<T(!new)>(s: seq<T>, p: T -> bool): (r: seq<T>)
    ensures |r| <= |s|
    ensures forall x :: x in r <==> x in s && p(x)
  {
    if |s| == 0 then []
    else (if p(s[0]) then [s[0]] else []) + Filter(s[1..], p)
  }

  /** Filtering distributes over concatenation, so a filter keeps the input order. */
  lemma {:induction false} FilterAppend<T(!new)>(a: seq<T>, b: seq<T>, p: T -> bool)
    ensures Filter(a + b, p) == Filter(a, p) + Filter(b, p)
    decreases |a|
  {
    if |a| > 0 {
      FilterAppend(a[1..], b, p);
      assert (a + b)[1..] == a[1..] + b;
    } else {
      assert a + b == b;
    }
  }

  /** Filtering out every element leaves nothing. */
  lemma {:induction false} FilterNone<T(!new)>(s: seq<T>, p: T -> bool)
    requires forall x :: x in s ==> !p(x)
    ensures Filter(s, p) == []
    decreases |s|
  {
    if |s| > 0 {
      assert s[0] in s;
      assert forall x :: x in s[1..] ==> x in s;
      FilterNone(s[1..], p);
    }
  }

  // ---------------------------------------------------------------------
  // Duplicates
  // ---------------------------------------------------------------------

  ghost predicate NoDup<T>(s: seq<T>)
  {
    forall i, j :: 0 <= i < j < |s| ==> s[i] != s[j]
  }

  /** `s` with every element after its first occurrence dropped. */
  function Dedup<T(==,!new)>(s: seq<T>): (r: seq<T>)
    ensures forall x :: x in r <==> x in s
    ensures NoDup(r)
  {
    if |s| == 0 then []
    else
      var r := Dedup(s[..|s| - 1]);
      assert forall x :: x in s <==> x in s[..|s| - 1] || x == s[|s| - 1] by {
        assert s == s[..|s| - 1] + [s[|s| - 1]];
      }
      if s[|s| - 1] in r then r else r + [s[|s| - 1]]
  }

  /** A list already free of duplicates is its own de-duplication. */
  lemma {:induction false} DedupOfNoDup<T(!new)>(s: seq<T>)
    requires NoDup(s)
    ensures Dedup(s) == s
  {
    if |s| > 0 {
      var init := s[..|s| - 1];
      assert NoDup(init);
      DedupOfNoDup(init);
      assert s[|s| - 1] !in init;
      assert s == init + [s[|s| - 1]];
    }
  }

  /** De-duplicating `a + b` starts with the de-duplication of `a`. */
  lemma {:induction false} DedupPrefix<T(!new)>(a: seq<T>, b: seq<T>)
    ensures |Dedup(a)| <= |Dedup(a + b)|
    ensures Dedup(a + b)[..|Dedup(a)|] == Dedup(a)
    decreases |b|
  {
    if |b| == 0 {
      assert a + b == a;
    } else {
      var ab := a + b;
      assert ab[..|ab| - 1] == a + b[..|b| - 1];
      DedupPrefix(a, b[..|b| - 1]);
    }
  }

  /** Whether an element is absent from `a`, as a filter predicate. */
  function NotInFn<T(==)>(a: seq<T>): T -> bool
  {
    (x: T) => x !in a
  }

  /** The last element of `s` is kept exactly when it does not occur before. */
  lemma DedupSnoc<T(!new)>(s: seq<T>, x: T)
    ensures Dedup(s + [x]) == if x in s then Dedup(s) else Dedup(s) + [x]
  {
    assert (s + [x])[..|s|] == s;
  }

  /** Filtering one more element adds it exactly when it passes. */
  lemma FilterSnoc<T(!new)>(s: seq<T>, y: T, p: T -> bool)
    ensures Filter(s + [y], p) == Filter(s, p) + (if p(y) then [y] else [])
  {
    FilterAppend(s, [y], p);
    assert [y][1..] == [];
  }

  /** An element seen before is dropped. */
  lemma DedupSnocSeen<T(!new)>(s: seq<T>, y: T)
    requires y in s
    ensures Dedup(s + [y]) == Dedup(s)
  {
    DedupSnoc(s, y);
  }

  /** A new element of `b` that `a` already holds fails the filter. */
  lemma FilterDedupSnocSeen<T(!new)>(a: seq<T>, init: seq<T>, y: T)
    requires y in a && y !in init
    ensures Filter(Dedup(init + [y]), NotInFn(a)) == Filter(Dedup(init), NotInFn(a))
  {
    DedupSnocNew(init, y);
    FilterSnoc(Dedup(init), y, NotInFn(a));
    AppendEmpty(Filter(Dedup(init), NotInFn(a)));
  }

  lemma AppendEmpty<T>(a: seq<T>)
    ensures a + [] == a
  {
  }

  /** An element of `a + init` appended to `b`'s prefix changes neither side. */
  lemma DedupAppendSeen<T(!new)>(a: seq<T>, init: seq<T>, y: T)
    requires y in a + init
    requires Dedup(a + init) == Dedup(a) + Filter(Dedup(init), NotInFn(a))
    ensures Dedup(a + init + [y]) == Dedup(a) + Filter(Dedup(init + [y]), NotInFn(a))
  {
    DedupSnocSeen(a + init, y);
    if y in init {
      DedupSnocSeen(init, y);
    } else {
      FilterDedupSnocSeen(a, init, y);
    }
  }

  lemma AppendAssoc<T>(a: seq<T>, b: seq<T>, c: seq<T>)
    ensures a + b + c == a + (b + c)
  {
  }

  /** A new element is kept, at the end. */
  lemma DedupSnocNew<T(!new)>(s: seq<T>, y: T)
    requires y !in s
    ensures Dedup(s + [y]) == Dedup(s) + [y]
  {
    DedupSnoc(s, y);
  }

  /** A new element, absent from `a`, passes the filter and is kept at the end. */
  lemma FilterDedupSnocNew<T(!new)>(a: seq<T>, init: seq<T>, y: T)
    requires y !in a && y !in init
    ensures Filter(Dedup(init + [y]), NotInFn(a)) == Filter(Dedup(init), NotInFn(a)) + [y]
  {
    DedupSnocNew(init, y);
    FilterSnoc(Dedup(init), y, NotInFn(a));
  }

  /** A new element appended to `b`'s prefix is appended on both sides. */
  lemma DedupAppendNew<T(!new)>(a: seq<T>, init: seq<T>, y: T)
    requires y !in a && y !in init
    requires Dedup(a + init) == Dedup(a) + Filter(Dedup(init), NotInFn(a))
    ensures Dedup(a + init + [y]) == Dedup(a) + Filter(Dedup(init + [y]), NotInFn(a))
  {
    DedupSnocNew(a + init, y);
    FilterDedupSnocNew(a, init, y);
    AppendAssoc(Dedup(a), Filter(Dedup(init), NotInFn(a)), [y]);
  }

  /**
   * De-duplicating `a + b` gives the de-duplication of `a` followed by the
   * first occurrences in `b` of the elements that `a` lacks.
   */
  lemma {:induction false} DedupAppend<T(!new)>(a: seq<T>, b: seq<T>)
    ensures Dedup(a + b) == Dedup(a) + Filter(Dedup(b), NotInFn(a))
    decreases |b|
  {
    if |b| == 0 {
      assert a + b == a;
    } else {
      var init := b[..|b| - 1];
      var y := b[|b| - 1];
      assert b == init + [y];
      assert a + b == a + init + [y];
      DedupAppend(a, init);
      if y in a + init {
        DedupAppendSeen(a, init, y);
      } else {
        assert y !in a && y !in init;
        DedupAppendNew(a, init, y);
      }
    }
  }

  /** Distinct elements occur at most once. */
  lemma {:induction false} NoDupCount<T>(s: seq<T>)
    ensures NoDup(s) <==> forall x :: multiset(s)[x] <= 1
  {
    if |s| > 0 {
      var t := s[1..];
      assert s == [s[0]] + t;
      NoDupCount(t);
      if NoDup(s) {
        assert NoDup(t);
        assert s[0] !in t;
      }
      if forall x :: multiset(s)[x] <= 1 {
        assert forall x :: multiset(t)[x] <= 1 by {
          forall x ensures multiset(t)[x] <= 1 {
            assert multiset(s)[x] == multiset([s[0]])[x] + multiset(t)[x];
          }
        }
        assert multiset(s)[s[0]] == 1 + multiset(t)[s[0]];
        assert s[0] !in t;
        forall i, j | 0 <= i < j < |s| ensures s[i] != s[j] {
          if i > 0 { assert s[i] == t[i - 1] && s[j] == t[j - 1]; }
          else { assert s[j] == t[j - 1]; }
        }
      }
    }
  }

  /** A permutation of a duplicate-free list is duplicate-free. */
  lemma NoDupPermutation<T>(a: seq<T>, b: seq<T>)
    requires multiset(a) == multiset(b) && NoDup(a)
    ensures NoDup(b)
  {
    NoDupCount(a);
    NoDupCount(b);
  }

  // ---------------------------------------------------------------------
  // Removal at an index
  // ---------------------------------------------------------------------

  /** `s` without its element at `i` (JavaScript `splice(i, 1)` on an index in range). */
  function RemoveAt<T>(s: seq<T>, i: nat): (r: seq<T>)
    requires i < |s|
    ensures |r| == |s| - 1
    ensures forall k :: 0 <= k < i ==> r[k] == s[k]
    ensures forall k :: i <= k < |r| ==> r[k] == s[k + 1]
    ensures multiset(r) == multiset(s) - multiset{s[i]}
  {
    assert s == s[..i] + [s[i]] + s[i + 1..];
    s[..i] + s[i + 1..]
  }

  // ---------------------------------------------------------------------
  // Stable insertion sort
  // ---------------------------------------------------------------------

  /** `le` is total and transitive: a sort key order with possible ties. */
  ghost predicate TotalPreorder<T(!new)>(le: (T, T) -> bool)
  {
    && (forall a, b :: le(a, b) || le(b, a))
    && (forall a, b, c :: le(a, b) && le(b, c) ==> le(a, c))
  }

  predicate SortedBy<T>(s: seq<T>, le: (T, T) -> bool)
  {
    forall i, j :: 0 <= i < j < |s| ==> le(s[i], s[j])
  }

  /** `x` placed before the first element it is not after; ties keep `x` first. */
  function Insert<T>(x: T, s: seq<T>, le: (T, T) -> bool): (r: seq<T>)
    ensures |r| == |s| + 1
    ensures multiset(r) == multiset(s) + multiset{x}
  {
    if |s| == 0 then [x]
    else if le(x, s[0]) then [x] + s
    else
      assert s == [s[0]] + s[1..];
      [s[0]] + Insert(x, s[1..], le)
  }

  /** The elements of `s` in `le` order; equal keys keep their input order. */
  function InsertionSort<T>(s: seq<T>, le: (T, T) -> bool): (r: seq<T>)
    ensures |r| == |s|
    ensures multiset(r) == multiset(s)
  {
    if |s| == 0 then []
    else
      assert s == [s[0]] + s[1..];
      Insert(s[0], InsertionSort(s[1..], le), le)
  }

  lemma {:induction false} InsertSorted<T(!new)>(x: T, s: seq<T>, le: (T, T) -> bool)
    requires TotalPreorder(le)
    requires SortedBy(s, le)
    ensures SortedBy(Insert(x, s, le), le)
    decreases |s|
  {
    if |s| > 0 && !le(x, s[0]) {
      var t := Insert(x, s[1..], le);
      InsertSorted(x, s[1..], le);
      assert le(s[0], x);
      forall y | y in t ensures le(s[0], y) {
        assert y in multiset(t);
        if y != x {
          assert y in multiset(s[1..]);
          var j :| 0 <= j < |s[1..]| && s[1..][j] == y;
          assert s[j + 1] == y;
        }
      }
      var r := [s[0]] + t;
      forall i, j | 0 <= i < j < |r| ensures le(r[i], r[j]) {
        if i == 0 { assert r[j] == t[j - 1]; assert r[j] in t; }
        else { assert r[i] == t[i - 1] && r[j] == t[j - 1]; }
      }
    }
  }

  /** Insertion sort yields a sorted permutation of its input. */
  lemma {:induction false} InsertionSortSorted<T(!new)>(s: seq<T>, le: (T, T) -> bool)
    requires TotalPreorder(le)
    ensures SortedBy(InsertionSort(s, le), le)
    ensures multiset(InsertionSort(s, le)) == multiset(s)
    decreases |s|
  {
    if |s| > 0 {
      InsertionSortSorted(s[1..], le);
      InsertSorted(s[0], InsertionSort(s[1..], le), le);
    }
  }
}
