/**
 * The popup's list of taken courses (frontend/popup.js): add a course only
 * when it is absent, remove the first occurrence of a course, and the
 * per-course check that lists the prerequisites not yet taken, where a
 * prerequisite "A|B" is met by either alternative.
 */
module TakenCourses {
  import opened Text
  import opened Seqs

  // ---------------------------------------------------------------------
  // saveCompletedCourse / removeCompletedCourse
  // ---------------------------------------------------------------------

  /** The list after `saveCompletedCourse(code)`: `code` appended when it is absent. */
  function Saved(taken: seq<string>, code: string): seq<string>
  {
    if code in taken then taken else taken + [code]
  }

  /** The list after `removeCompletedCourse(code)`: the first occurrence of `code` removed, if any. */
  function Removed(taken: seq<string>, code: string): seq<string>
  {
    var i := IndexOf(taken, code);
    if i > -1 then RemoveAt(taken, i) else taken
  }

  /** Saving never creates a duplicate, always leaves the code present, and keeps the earlier codes in order. */
  lemma {:induction false} SavedNoDup(taken: seq<string>, code: string)
    requires NoDup(taken)
    ensures NoDup(Saved(taken, code))
    ensures code in Saved(taken, code)
    ensures Saved(taken, code)[..|taken|] == taken
  {
  }

  /** Saving twice is saving once. */
  lemma {:induction false} SavedIdempotent(taken: seq<string>, code: string)
    ensures Saved(Saved(taken, code), code) == Saved(taken, code)
  {
  }

  /** A present code is removed at its first index. */
  lemma RemovedPresent(taken: seq<string>, code: string)
    requires code in taken
    ensures var i := IndexOf(taken, code);
      0 <= i < |taken| && taken[i] == code &&
      Removed(taken, code) == taken[..i] + taken[i + 1..] &&
      multiset(Removed(taken, code)) == multiset(taken) - multiset{code}
  {
  }

  /**
   * Removing takes out exactly one copy of the code when there is one,
   * keeps the others in order, and changes nothing when the code is absent.
   */
  lemma {:induction false} RemovedFirst(taken: seq<string>, code: string)
    ensures multiset(Removed(taken, code)) == multiset(taken) - multiset{code}
    ensures code !in taken ==> Removed(taken, code) == taken
    ensures code in taken ==>
      var i := IndexOf(taken, code);
      Removed(taken, code) == taken[..i] + taken[i + 1..] && code !in taken[..i]
  {
    if code in taken {
      RemovedPresent(taken, code);
    } else {
      assert multiset(taken)[code] == 0;
    }
  }

  /** In a list without duplicates, removing a code leaves it absent. */
  lemma {:induction false} RemovedAbsent(taken: seq<string>, code: string)
    requires NoDup(taken)
    ensures code !in Removed(taken, code)
  {
    RemovedFirst(taken, code);
    assert multiset(taken)[code] <= 1 by { NoDupCount(taken); }
  }

  /** Saving a new code and then removing it gives the list back. */
  lemma {:induction false} SaveThenRemove(taken: seq<string>, code: string)
    requires code !in taken
    ensures Removed(Saved(taken, code), code) == taken
  {
    var t := taken + [code];
    assert IndexOf(t, code) == |taken| by {
      var i := IndexOf(t, code);
      assert t[i] == code;
    }
    assert t[..|taken|] == taken;
  }

  /** The user's saved record, as far as the taken-course list goes. */
  class UserData {
    var takenCourses: seq<string>

    constructor(taken: seq<string>)
      ensures takenCourses == taken
    {
      takenCourses := taken;
    }

    /** `saveCompletedCourse`: push the code unless it is already there. */
    method SaveCompletedCourse(code: string)
      modifies this
      ensures takenCourses == Saved(old(takenCourses), code)
    {
      if code !in takenCourses {
        takenCourses := takenCourses + [code];
      }
    }

    /** `removeCompletedCourse`: splice out the first occurrence, if there is one. */
    method RemoveCompletedCourse(code: string)
      modifies this
      ensures takenCourses == Removed(old(takenCourses), code)
    {
      var index := IndexOf(takenCourses, code);
      if index > -1 {
        takenCourses := RemoveAt(takenCourses, index);
      }
    }
  }

  // ---------------------------------------------------------------------
  // The prerequisite check of a checked course
  // ---------------------------------------------------------------------

  /** Each piece trimmed (`map(s => s.trim())`). */
  function TrimAll(pieces: seq<string>): (r: seq<string>)
    ensures |r| == |pieces|
    ensures forall i :: 0 <= i < |r| ==> r[i] == Trim(Js, pieces[i])
  {
    if |pieces| == 0 then [] else [Trim(Js, pieces[0])] + TrimAll(pieces[1..])
  }

  /** The alternatives of one prerequisite entry: its `|` pieces, trimmed. */
  function Options(prereq: string): seq<string>
  {
    TrimAll(Split(prereq, '|'))
  }

  /** An entry is met when one of its alternatives is, exactly, a taken course. */
  predicate PrereqMet(prereq: string, taken: seq<string>)
  {
    exists opt :: opt in Options(prereq) && opt in taken
  }

  /** Whether an entry is unmet, as a filter predicate. */
  function UnmetFn(taken: seq<string>): string -> bool
  {
    (p: string) => !PrereqMet(p, taken)
  }

  /** `options.some(opt => takenCourses.includes(opt))`. */
  method AnyTaken(options: seq<string>, taken: seq<string>) returns (any: bool)
    ensures any <==> exists opt :: opt in options && opt in taken
  {
    any := false;
    var j := 0;
    while j < |options|
      invariant 0 <= j <= |options|
      invariant any <==> exists k :: 0 <= k < j && options[k] in taken
    {
      if options[j] in taken {
        any := true;
      }
      j := j + 1;
    }
  }

  /** One more entry adds itself to the missing list exactly when it is unmet. */
  lemma MissingStep(prereqs: seq<string>, i: nat, taken: seq<string>)
    requires i < |prereqs|
    ensures Filter(prereqs[..i + 1], UnmetFn(taken)) ==
      Filter(prereqs[..i], UnmetFn(taken)) + (if PrereqMet(prereqs[i], taken) then [] else [prereqs[i]])
  {
    assert prereqs[..i + 1] == prereqs[..i] + [prereqs[i]];
    FilterAppend(prereqs[..i], [prereqs[i]], UnmetFn(taken));
    assert [prereqs[i]][1..] == [];
  }

  /** The missing-prerequisite loop: push every entry none of whose alternatives is taken. */
  method MissingPrereqs(prereqs: seq<string>, taken: seq<string>) returns (missing: seq<string>)
    ensures missing == Filter(prereqs, UnmetFn(taken))
  {
    missing := [];
    var i := 0;
    while i < |prereqs|
      invariant 0 <= i <= |prereqs|
      invariant missing == Filter(prereqs[..i], UnmetFn(taken))
    {
      var any := AnyTaken(Options(prereqs[i]), taken);
      MissingStep(prereqs, i, taken);
      if !any {
        missing := missing + [prereqs[i]];
      }
      i := i + 1;
    }
    assert prereqs[..i] == prereqs;
  }

  /** The missing entries are exactly the unmet ones, in prerequisite order. */
  lemma {:induction false} MissingExactly(prereqs: seq<string>, taken: seq<string>)
    ensures forall p :: p in Filter(prereqs, UnmetFn(taken)) <==> p in prereqs && !PrereqMet(p, taken)
    ensures forall a, b :: prereqs == a + b ==>
      Filter(prereqs, UnmetFn(taken)) == Filter(a, UnmetFn(taken)) + Filter(b, UnmetFn(taken))
  {
    forall a, b | prereqs == a + b
      ensures Filter(prereqs, UnmetFn(taken)) == Filter(a, UnmetFn(taken)) + Filter(b, UnmetFn(taken))
    {
      FilterAppend(a, b, UnmetFn(taken));
    }
  }

  /** "A | B" is met when the second alternative is taken: spaces around `|` do not matter. */
  lemma {:induction false} AlternativeMet(a: string, b: string, taken: seq<string>)
    requires '|' !in a && '|' !in b
    requires b != [] && !IsJsSpace(b[0]) && !IsJsSpace(b[|b| - 1])
    requires b in taken
    ensures PrereqMet(a + " | " + b, taken)
  {
    var s := a + " | " + b;
    assert s == (a + " ") + ['|'] + (" " + b);
    assert '|' !in a + " " by { assert forall i :: 0 <= i < |a| ==> (a + " ")[i] == a[i]; }
    assert '|' !in " " + b by { assert forall i :: 0 <= i < |b| ==> (" " + b)[i + 1] == b[i]; }
    SplitCons(a + " ", '|', " " + b);
    SplitNoSep(" " + b, '|');
    assert Split(s, '|') == [a + " ", " " + b];
    TrimOfTrimmed(Js, b);
    assert TrimStart(Js, " " + b) == b by {
      assert (" " + b)[1..] == b;
      assert TrimStart(Js, b) == b;
    }
    assert Trim(Js, " " + b) == b;
    assert Options(s)[1] == b;
  }
}
