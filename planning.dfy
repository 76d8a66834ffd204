/**
 * The values the two planning back ends exchange: requirement templates,
 * their buckets, the per-bucket diff against completed courses, class
 * sections, and Python's `sorted(set(codes))` on course codes.
 */
module Planning {
  import opened Text
  import opened Seqs

  /** One requirement bucket: choose `choose` of `courses`. */
  datatype Bucket = Bucket(id: string, choose: int, courses: seq<string>)

  /** A major's requirement template (`{"buckets": [...]}`). */
  datatype Template = Template(buckets: seq<Bucket>)

  /** One entry of `needed`: the bucket's id and choose, and its remaining courses. */
  datatype Needed = Needed(id: string, choose: int, remaining: seq<string>)

  /** The result of a requirement diff (`{"needed": ..., "eligible": ...}`). */
  datatype Diff = Diff(needed: seq<Needed>, eligible: seq<string>)

  /** One class section (`{"course", "term", "campus", "days", "start", "end", "credits"}`). */
  datatype Section = Section(
    course: string, term: string, campus: string,
    days: seq<string>, start: string, end: string, credits: int)

  // ---------------------------------------------------------------------
  // sorted(set(codes))
  // ---------------------------------------------------------------------

  /** Python's string `<=` is a total preorder (in fact a total order). */
  lemma StrLeTotalPreorder()
    ensures TotalPreorder(StrLe)
  {
    forall a, b ensures StrLe(a, b) || StrLe(b, a) {
      StrLeTotal(a, b);
    }
    forall a, b, c | StrLe(a, b) && StrLe(b, c) ensures StrLe(a, c) {
      StrLeTrans(a, b, c);
    }
  }

  /** Strictly increasing under Python's string `<`: sorted and free of duplicates. */
  predicate StrictlySorted(s: seq<string>)
  {
    forall i, j :: 0 <= i < j < |s| ==> StrLt(s[i], s[j])
  }

  /** The distinct codes of `codes` in increasing order (`sorted(set(codes))`). */
  function SortedUnique(codes: seq<string>): (r: seq<string>)
    ensures StrictlySorted(r)
    ensures forall x :: x in r <==> x in codes
  {
    var d := Dedup(codes);
    var r := InsertionSort(d, StrLe);
    assert StrictlySorted(r) by {
      StrLeTotalPreorder();
      InsertionSortSorted(d, StrLe);
      NoDupPermutation(d, r);
    }
    assert forall x :: x in r <==> x in d by {
      forall x ensures x in r <==> x in d {
        assert x in r <==> x in multiset(r);
        assert x in d <==> x in multiset(d);
      }
    }
    r
  }

  /** A strictly sorted list is determined by its elements. */
  lemma {:induction false} StrictlySortedUnique(a: seq<string>, b: seq<string>)
    requires StrictlySorted(a) && StrictlySorted(b)
    requires forall x :: x in a <==> x in b
    ensures a == b
    decreases |a|
  {
    if |a| > 0 { assert a[0] in b; }
    if |b| > 0 { assert b[0] in a; }
    if |a| > 0 && |b| > 0 {
      // The heads are both the least element.
      assert a[0] == b[0] by {
        assert b[0] in a && a[0] in b;
        var i :| 0 <= i < |a| && a[i] == b[0];
        var j :| 0 <= j < |b| && b[j] == a[0];
        assert StrLe(a[0], b[0]) by { if i > 0 { assert StrLt(a[0], a[i]); } else { StrLeRefl(a[0]); } }
        assert StrLe(b[0], a[0]) by { if j > 0 { assert StrLt(b[0], b[j]); } else { StrLeRefl(b[0]); } }
        StrLeAntisym(a[0], b[0]);
      }
      forall x ensures x in a[1..] <==> x in b[1..] {
        if x in a[1..] {
          var i :| 1 <= i < |a| && a[i] == x;
          assert StrLt(a[0], a[i]);
          assert x in b;
        }
        if x in b[1..] {
          var j :| 1 <= j < |b| && b[j] == x;
          assert StrLt(b[0], b[j]);
          assert x in a;
        }
      }
      StrictlySortedUnique(a[1..], b[1..]);
      assert a == [a[0]] + a[1..] && b == [b[0]] + b[1..];
    }
  }

  /** `sorted(set(codes))` depends only on which codes occur, not on order or repetition. */
  lemma SortedUniqueBySet(a: seq<string>, b: seq<string>)
    requires forall x :: x in a <==> x in b
    ensures SortedUnique(a) == SortedUnique(b)
  {
    StrictlySortedUnique(SortedUnique(a), SortedUnique(b));
  }

  // ---------------------------------------------------------------------
  // The union of the remaining lists
  // ---------------------------------------------------------------------

  /** Every bucket's remaining courses, bucket after bucket. */
  function AllRemaining(needed: seq<Needed>): (r: seq<string>)
    ensures forall c :: c in r <==> exists n :: n in needed && c in n.remaining
  {
    if |needed| == 0 then []
    else
      assert forall n :: n in needed <==> n == needed[0] || n in needed[1..];
      needed[0].remaining + AllRemaining(needed[1..])
  }

  lemma {:induction false} AllRemainingSnoc(needed: seq<Needed>, n: Needed)
    ensures AllRemaining(needed + [n]) == AllRemaining(needed) + n.remaining
  {
    if |needed| == 0 {
      assert needed + [n] == [n];
    } else {
      assert (needed + [n])[1..] == needed[1..] + [n];
      AllRemainingSnoc(needed[1..], n);
    }
  }
}
