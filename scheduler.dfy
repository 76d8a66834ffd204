/**
 * The greedy section scheduler `schedule_solver`, identical in
 * backend/panther_agent/tools.py and backend/panther-planner/tools.py:
 * drop sections on avoided days, sort by (start, course), pick each
 * section that overlaps none already picked, and stop once the credit
 * target is reached.
 */
module Scheduler {
  import opened Wrappers
  import opened Text
  import opened Seqs
  import opened Planning

  /** The solver's preferences; `None` is a key the request left out. */
  datatype Prefs = Prefs(creditsTarget: Option<int>, timeOfDay: Option<string>, daysToAvoid: seq<string>)

  /** One plan of the result list. */
  datatype Plan = Plan(sections: seq<Section>, credits: int, score: int)

  /** `prefs.get("creditsTarget", 9)`. */
  function Target(prefs: Prefs): int
  {
    match prefs.creditsTarget
    case Some(t) => t
    case None => 9
  }

  /** `prefs.get("timeOfDay") == "Morning"`. */
  predicate Morning(prefs: Prefs)
  {
    prefs.timeOfDay == Some("Morning")
  }

  /** `set(prefs.get("daysToAvoid", []))`. */
  function AvoidSet(prefs: Prefs): set<string>
  {
    set d | d in prefs.daysToAvoid
  }

  /** The section meets on some avoided day. */
  predicate ViolatesDays(s: Section, avoid: set<string>)
  {
    exists d :: d in s.days && d in avoid
  }

  /** A shared day and intersecting times, with times compared as strings. */
  predicate Overlap(a: Section, b: Section)
  {
    (exists d :: d in a.days && d in b.days) && !(StrLe(a.end, b.start) || StrLe(b.end, a.start))
  }

  /** `s` overlaps some section of `chosen`. */
  predicate ConflictsAny(s: Section, chosen: seq<Section>)
  {
    exists u :: u in chosen && Overlap(s, u)
  }

  /** No two sections of `c` overlap. */
  predicate ConflictFree(c: seq<Section>)
  {
    forall i, j :: 0 <= i < |c| && 0 <= j < |c| && i != j ==> !Overlap(c[i], c[j])
  }

  /** The sort key order: by start time, then by course code. */
  predicate SectionLe(a: Section, b: Section)
  {
    StrLt(a.start, b.start) || (a.start == b.start && StrLe(a.course, b.course))
  }

  lemma SectionLeTotalPreorder()
    ensures TotalPreorder(SectionLe)
  {
    forall a: Section, b: Section ensures SectionLe(a, b) || SectionLe(b, a) {
      StrLeTotal(a.start, b.start);
      StrLeTotal(a.course, b.course);
    }
    forall a: Section, b: Section, c: Section | SectionLe(a, b) && SectionLe(b, c)
      ensures SectionLe(a, c)
    {
      if a.start == b.start && b.start == c.start {
        StrLeTrans(a.course, b.course, c.course);
      } else {
        StrLeRefl(a.start);
        StrLeRefl(b.start);
        StrLeTrans(a.start, b.start, c.start);
        if a.start == c.start {
          StrLeAntisym(a.start, b.start);
        }
      }
    }
  }

  /** The sum of the credits of `c`. */
  function Credits(c: seq<Section>): int
  {
    if |c| == 0 then 0 else c[0].credits + Credits(c[1..])
  }

  lemma {:induction false} CreditsSnoc(c: seq<Section>, s: Section)
    ensures Credits(c + [s]) == Credits(c) + s.credits
  {
    if |c| == 0 {
      assert c + [s] == [s];
    } else {
      assert (c + [s])[1..] == c[1..] + [s];
      CreditsSnoc(c[1..], s);
    }
  }

  /** The number of sections of `c` that start before noon, counted only when mornings are preferred. */
  function Score(c: seq<Section>, morning: bool): (r: int)
    ensures 0 <= r <= |c|
    ensures !morning ==> r == 0
  {
    if |c| == 0 then 0
    else (if morning && StrLt(c[0].start, "12:00") then 1 else 0) + Score(c[1..], morning)
  }

  /** With mornings preferred, the score is the number of chosen sections starting before "12:00". */
  lemma {:induction false} ScoreCountsMornings(c: seq<Section>)
    ensures Score(c, true) == |Filter(c, (s: Section) => StrLt(s.start, "12:00"))|
  {
    if |c| > 0 {
      ScoreCountsMornings(c[1..]);
    }
  }

  /** The candidates: sections on no avoided day, sorted by (start, course). */
  function Pool(sections: seq<Section>, avoid: set<string>): seq<Section>
  {
    InsertionSort(Filter(sections, (s: Section) => !ViolatesDays(s, avoid)), SectionLe)
  }

  /** The greedy pass over `pool`, starting from `chosen`. */
  function Greedy(pool: seq<Section>, chosen: seq<Section>, target: int): seq<Section>
    decreases |pool|
  {
    if |pool| == 0 then chosen
    else if ConflictsAny(pool[0], chosen) then Greedy(pool[1..], chosen, target)
    else if Credits(chosen + [pool[0]]) >= target then chosen + [pool[0]]
    else Greedy(pool[1..], chosen + [pool[0]], target)
  }

  /** The sections `schedule_solver` chooses. */
  function Chosen(sections: seq<Section>, prefs: Prefs): seq<Section>
  {
    Greedy(Pool(sections, AvoidSet(prefs)), [], Target(prefs))
  }

  /** The solver as the source writes it: a loop over the sorted pool with a `break` on the target. */
  method ScheduleSolver(sections: seq<Section>, prefs: Prefs) returns (plans: seq<Plan>)
    ensures |plans| == 1
    ensures plans[0].sections == Chosen(sections, prefs)
    ensures plans[0].credits == Credits(plans[0].sections)
    ensures plans[0].score == Score(plans[0].sections, Morning(prefs))
  {
    var target := Target(prefs);
    var morning := prefs.timeOfDay == Some("Morning");
    var avoid := set d | d in prefs.daysToAvoid;
    var pool := Filter(sections, (s: Section) => !ViolatesDays(s, avoid));
    pool := InsertionSort(pool, SectionLe);
    var chosen: seq<Section> := [];
    var i := 0;
    while i < |pool|
      invariant 0 <= i <= |pool|
      invariant Greedy(pool[i..], chosen, target) == Greedy(pool, [], target)
    {
      var s := pool[i];
      assert pool[i..][1..] == pool[i + 1..];
      if exists u :: u in chosen && Overlap(s, u) {
        i := i + 1;
        continue;
      }
      chosen := chosen + [s];
      if Credits(chosen) >= target {
        break;
      }
      i := i + 1;
    }
    var score := Score(chosen, morning);
    plans := [Plan(chosen, Credits(chosen), score)];
  }

  // ---------------------------------------------------------------------
  // Properties of the greedy pass
  // ---------------------------------------------------------------------

  /** The pass only ever appends to `chosen`. */
  lemma {:induction false} GreedyExtends(pool: seq<Section>, chosen: seq<Section>, target: int)
    ensures |chosen| <= |Greedy(pool, chosen, target)|
    ensures Greedy(pool, chosen, target)[..|chosen|] == chosen
    decreases |pool|
  {
    if |pool| > 0 {
      var c2 := chosen + [pool[0]];
      if ConflictsAny(pool[0], chosen) {
        GreedyExtends(pool[1..], chosen, target);
      } else if Credits(c2) < target {
        GreedyExtends(pool[1..], c2, target);
        assert c2[..|chosen|] == chosen;
      }
    }
  }

  /** Every chosen section was already chosen or comes from the pool. */
  lemma {:induction false} GreedyFrom(pool: seq<Section>, chosen: seq<Section>, target: int)
    ensures forall x :: x in Greedy(pool, chosen, target) ==> x in chosen || x in pool
    decreases |pool|
  {
    if |pool| > 0 {
      var c2 := chosen + [pool[0]];
      if ConflictsAny(pool[0], chosen) {
        GreedyFrom(pool[1..], chosen, target);
      } else if Credits(c2) < target {
        GreedyFrom(pool[1..], c2, target);
      }
    }
  }

  /** Adding only sections that overlap nothing chosen keeps the choice conflict-free. */
  lemma {:induction false} GreedyConflictFree(pool: seq<Section>, chosen: seq<Section>, target: int)
    requires ConflictFree(chosen)
    ensures ConflictFree(Greedy(pool, chosen, target))
    decreases |pool|
  {
    if |pool| > 0 {
      var c2 := chosen + [pool[0]];
      if ConflictsAny(pool[0], chosen) {
        GreedyConflictFree(pool[1..], chosen, target);
      } else {
        assert ConflictFree(c2) by {
          forall i, j | 0 <= i < |c2| && 0 <= j < |c2| && i != j ensures !Overlap(c2[i], c2[j]) {
            if i < |chosen| && j < |chosen| {
              assert c2[i] == chosen[i] && c2[j] == chosen[j];
            } else if i < |chosen| {
              assert c2[i] in chosen;
            } else {
              assert c2[j] in chosen;
            }
          }
        }
        if Credits(c2) < target {
          GreedyConflictFree(pool[1..], c2, target);
        }
      }
    }
  }

  /** Either the target is reached, or every pool section left out overlaps a chosen one. */
  lemma {:induction false} GreedyTargetOrMaximal(pool: seq<Section>, chosen: seq<Section>, target: int)
    ensures var r := Greedy(pool, chosen, target);
      Credits(r) >= target || forall s :: s in pool ==> s in r || ConflictsAny(s, r)
    decreases |pool|
  {
    if |pool| > 0 {
      var s := pool[0];
      var c2 := chosen + [s];
      var r := Greedy(pool, chosen, target);
      if ConflictsAny(s, chosen) {
        GreedyTargetOrMaximal(pool[1..], chosen, target);
        GreedyExtends(pool[1..], chosen, target);
        var u :| u in chosen && Overlap(s, u);
        assert u in r by {
          var k :| 0 <= k < |chosen| && chosen[k] == u;
          assert r[..|chosen|][k] == u;
        }
      } else if Credits(c2) < target {
        GreedyTargetOrMaximal(pool[1..], c2, target);
        GreedyExtends(pool[1..], c2, target);
        assert r[..|c2|][|chosen|] == s;
      }
    }
  }

  /** No proper non-empty prefix of `c` reaches the target. */
  predicate BelowTargetBeforeLast(c: seq<Section>, target: int)
  {
    forall k :: 1 <= k < |c| ==> Credits(c[..k]) < target
  }

  /** No proper non-empty prefix of the choice reaches the target: the pass stops as soon as it does. */
  lemma {:induction false} GreedyStopsAtTarget(pool: seq<Section>, chosen: seq<Section>, target: int)
    requires BelowTargetBeforeLast(chosen, target)
    requires chosen == [] || Credits(chosen) < target
    ensures BelowTargetBeforeLast(Greedy(pool, chosen, target), target)
    decreases |pool|
  {
    if |pool| > 0 {
      var c2 := chosen + [pool[0]];
      if ConflictsAny(pool[0], chosen) {
        GreedyStopsAtTarget(pool[1..], chosen, target);
      } else {
        assert BelowTargetBeforeLast(c2, target) by {
          forall k | 1 <= k < |c2| ensures Credits(c2[..k]) < target {
            assert c2[..k] == chosen[..k];
            if k == |chosen| { assert chosen[..k] == chosen; }
          }
        }
        if Credits(c2) < target {
          GreedyStopsAtTarget(pool[1..], c2, target);
        }
      }
    }
  }

  /** The choice keeps the pool's order. */
  lemma {:induction false} GreedySorted(pool: seq<Section>, chosen: seq<Section>, target: int)
    requires SortedBy(pool, SectionLe) && SortedBy(chosen, SectionLe)
    requires forall x, y :: x in chosen && y in pool ==> SectionLe(x, y)
    ensures SortedBy(Greedy(pool, chosen, target), SectionLe)
    decreases |pool|
  {
    if |pool| > 0 {
      var s := pool[0];
      var c2 := chosen + [s];
      assert forall y :: y in pool[1..] ==> SectionLe(s, y) by {
        forall y | y in pool[1..] ensures SectionLe(s, y) {
          var k :| 0 <= k < |pool[1..]| && pool[1..][k] == y;
          assert pool[k + 1] == y;
        }
      }
      assert SortedBy(pool[1..], SectionLe) by {
        forall i, j | 0 <= i < j < |pool[1..]| ensures SectionLe(pool[1..][i], pool[1..][j]) {
          assert pool[1..][i] == pool[i + 1] && pool[1..][j] == pool[j + 1];
        }
      }
      if ConflictsAny(s, chosen) {
        GreedySorted(pool[1..], chosen, target);
      } else {
        assert SortedBy(c2, SectionLe) by {
          forall i, j | 0 <= i < j < |c2| ensures SectionLe(c2[i], c2[j]) {
            if j < |chosen| {
              assert c2[i] == chosen[i] && c2[j] == chosen[j];
            } else {
              assert c2[i] in chosen;
            }
          }
        }
        if Credits(c2) < target {
          GreedySorted(pool[1..], c2, target);
        }
      }
    }
  }

  // ---------------------------------------------------------------------
  // Properties of the solver's choice
  // ---------------------------------------------------------------------

  /** Every chosen section is an input section that meets on no avoided day. */
  lemma SolverSectionsFromInput(sections: seq<Section>, prefs: Prefs)
    ensures forall x :: x in Chosen(sections, prefs) ==>
              x in sections && !ViolatesDays(x, AvoidSet(prefs))
  {
    var avoid := AvoidSet(prefs);
    var f := Filter(sections, (s: Section) => !ViolatesDays(s, avoid));
    GreedyFrom(Pool(sections, avoid), [], Target(prefs));
    forall x | x in Pool(sections, avoid) ensures x in f {
      assert x in multiset(InsertionSort(f, SectionLe));
    }
  }

  /** No two chosen sections overlap. */
  lemma SolverConflictFree(sections: seq<Section>, prefs: Prefs)
    ensures ConflictFree(Chosen(sections, prefs))
  {
    GreedyConflictFree(Pool(sections, AvoidSet(prefs)), [], Target(prefs));
  }

  /** Chosen sections come in (start, course) order. */
  lemma SolverSorted(sections: seq<Section>, prefs: Prefs)
    ensures SortedBy(Chosen(sections, prefs), SectionLe)
  {
    var avoid := AvoidSet(prefs);
    SectionLeTotalPreorder();
    InsertionSortSorted(Filter(sections, (s: Section) => !ViolatesDays(s, avoid)), SectionLe);
    GreedySorted(Pool(sections, avoid), [], Target(prefs));
  }

  /**
   * Either the chosen credits reach the target, or every section on no
   * avoided day that was left out overlaps a chosen section.
   */
  lemma SolverTargetOrMaximal(sections: seq<Section>, prefs: Prefs)
    ensures var c := Chosen(sections, prefs);
      Credits(c) >= Target(prefs) ||
      forall s :: s in sections && !ViolatesDays(s, AvoidSet(prefs)) ==> s in c || ConflictsAny(s, c)
  {
    var avoid := AvoidSet(prefs);
    var f := Filter(sections, (s: Section) => !ViolatesDays(s, avoid));
    GreedyTargetOrMaximal(Pool(sections, avoid), [], Target(prefs));
    forall x | x in f ensures x in Pool(sections, avoid) {
      assert x in multiset(f);
    }
  }

  /** The solver stops at the first section that brings the credits to the target. */
  lemma SolverStopsAtTarget(sections: seq<Section>, prefs: Prefs)
    ensures BelowTargetBeforeLast(Chosen(sections, prefs), Target(prefs))
  {
    GreedyStopsAtTarget(Pool(sections, AvoidSet(prefs)), [], Target(prefs));
  }
}
