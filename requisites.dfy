/**
 * Requisite expressions of the planning agent (backend/panther_agent/tools.py):
 * comma-separated AND-groups of `|`-separated alternatives, course-code
 * normalisation, and the check that a set of completed courses meets an
 * expression.
 */
module Requisites {
  import opened Text

  // ---------------------------------------------------------------------
  // Course-code normalisation (`_norm`)
  // ---------------------------------------------------------------------

  /** A course code with its spaces deleted and its letters upper-cased. */
  function Norm(code: string): (r: string)
    ensures ' ' !in r
    ensures forall i :: 0 <= i < |r| ==> !IsAsciiLower(r[i])
  {
    var r := Upper(RemoveSpaces(code));
    assert forall c :: c in r ==> c != ' ' by {
      forall c | c in r ensures c != ' ' {
        var i :| 0 <= i < |r| && r[i] == c;
        assert RemoveSpaces(code)[i] in RemoveSpaces(code);
      }
    }
    r
  }

  lemma {:induction false} RemoveSpacesOfSpaceFree(s: string)
    requires ' ' !in s
    ensures RemoveSpaces(s) == s
  {
    if |s| > 0 {
      RemoveSpacesOfSpaceFree(s[1..]);
      assert s == [s[0]] + s[1..];
    }
  }

  lemma UpperOfUpper(s: string)
    requires forall i :: 0 <= i < |s| ==> !IsAsciiLower(s[i])
    ensures Upper(s) == s
  {
  }

  /** Normalising twice is normalising once. */
  lemma NormIdempotent(code: string)
    ensures Norm(Norm(code)) == Norm(code)
  {
    var n := Norm(code);
    RemoveSpacesOfSpaceFree(n);
    UpperOfUpper(n);
  }

  // ---------------------------------------------------------------------
  // Parsing (`parse_requisite_string`)
  // ---------------------------------------------------------------------

  /** The trimmed, non-blank pieces, in order (`[o.strip() for o in pieces if o.strip()]`). */
  function NonBlankTrimmed(pieces: seq<string>): (r: seq<string>)
    ensures |r| <= |pieces|
    ensures forall k :: 0 <= k < |r| ==> r[k] != [] && Trim(Py, r[k]) == r[k]
  {
    if |pieces| == 0 then []
    else
      var t := Trim(Py, pieces[0]);
      TrimIdempotent(Py, pieces[0]);
      (if t != [] then [t] else []) + NonBlankTrimmed(pieces[1..])
  }

  /** The alternatives of one AND-group. */
  function Alternatives(group: string): seq<string>
  {
    NonBlankTrimmed(Split(group, '|'))
  }

  /** The group one comma piece contributes: none when the piece is blank. */
  function GroupOf(piece: string): seq<seq<string>>
  {
    var g := Trim(Py, piece);
    if g == [] then [] else [Alternatives(g)]
  }

  /** One group per non-blank comma piece. */
  function Groups(pieces: seq<string>): seq<seq<string>>
  {
    if |pieces| == 0 then [] else GroupOf(pieces[0]) + Groups(pieces[1..])
  }

  /** The groups of a list of pieces with one more piece at its end. */
  lemma {:induction false} GroupsSnoc(pieces: seq<string>, x: string)
    ensures Groups(pieces + [x]) == Groups(pieces) + GroupOf(x)
  {
    if |pieces| == 0 {
      assert pieces + [x] == [x];
    } else {
      assert (pieces + [x])[1..] == pieces[1..] + [x];
      GroupsSnoc(pieces[1..], x);
    }
  }

  /**
   * The parse of a requisite expression: a list of AND-groups, each a list of
   * alternatives. The source's `not expr.strip()` is `IsBlank` (see `TrimBlank`).
   */
  function ParseRequisite(expr: string): seq<seq<string>>
  {
    if expr == [] || IsBlank(Py, expr) then []
    else Groups(Split(expr, ','))
  }

  /** The parser as the source writes it: a loop appending one group per non-blank piece. */
  method ParseRequisiteString(expr: string) returns (groups: seq<seq<string>>)
    ensures groups == ParseRequisite(expr)
  {
    if expr == [] || IsBlank(Py, expr) {
      return [];
    }
    var pieces := Split(expr, ',');
    groups := [];
    var i := 0;
    while i < |pieces|
      invariant 0 <= i <= |pieces|
      invariant groups == Groups(pieces[..i])
    {
      assert pieces[..i + 1] == pieces[..i] + [pieces[i]];
      GroupsSnoc(pieces[..i], pieces[i]);
      var g := Trim(Py, pieces[i]);
      if g != [] {
        var ors := Alternatives(g);
        groups := groups + [ors];
      }
      i := i + 1;
    }
    assert pieces[..i] == pieces;
  }

  /** An expression whose strip is empty has no groups. */
  lemma ParseBlank(expr: string)
    requires Trim(Py, expr) == []
    ensures ParseRequisite(expr) == []
  {
    TrimBlank(Py, expr);
  }

  /** The number of groups is the number of comma pieces that are not blank. */
  function CountNonBlank(pieces: seq<string>): nat
  {
    if |pieces| == 0 then 0
    else (if Trim(Py, pieces[0]) == [] then 0 else 1) + CountNonBlank(pieces[1..])
  }

  /** Every alternative of every group is trimmed, non-empty and free of both separators. */
  lemma {:induction false} GroupsShape(pieces: seq<string>)
    requires forall k :: 0 <= k < |pieces| ==> ',' !in pieces[k]
    ensures |Groups(pieces)| == CountNonBlank(pieces)
    ensures forall g, o :: g in Groups(pieces) && o in g ==>
              o != [] && Trim(Py, o) == o && '|' !in o && ',' !in o
  {
    if |pieces| > 0 {
      GroupsShape(pieces[1..]);
      var g := Trim(Py, pieces[0]);
      if g != [] {
        var parts := Split(g, '|');
        TrimChars(Py, pieces[0]);
        assert ',' !in g;
        assert forall p :: p in parts ==> ',' !in p by {
          JoinSplit(g, '|');
          forall p | p in parts ensures ',' !in p {
            var j :| 0 <= j < |parts| && parts[j] == p;
            PieceInJoin(parts, '|', j);
          }
        }
        AlternativesFree(parts);
      }
    }
  }

  /** Each piece of a join occurs inside the joined string. */
  lemma {:induction false} PieceInJoin(parts: seq<string>, sep: char, j: nat)
    requires j < |parts|
    ensures forall c :: c in parts[j] ==> c in Join(parts, sep)
  {
    if |parts| > 1 {
      if j > 0 {
        PieceInJoin(parts[1..], sep, j - 1);
      }
      assert Join(parts, sep) == parts[0] + [sep] + Join(parts[1..], sep);
    }
  }

  /** Trimmed, non-blank pieces contain no separator their source pieces lacked. */
  lemma {:induction false} AlternativesFree(parts: seq<string>)
    requires forall p :: p in parts ==> ',' !in p && '|' !in p
    ensures forall o :: o in NonBlankTrimmed(parts) ==> ',' !in o && '|' !in o
  {
    if |parts| > 0 {
      AlternativesFree(parts[1..]);
      TrimChars(Py, parts[0]);
    }
  }

  /** The groups, in order, are the alternatives of the non-blank comma pieces. */
  lemma ParseShape(expr: string)
    ensures |ParseRequisite(expr)| == if IsBlank(Py, expr) then 0 else CountNonBlank(Split(expr, ','))
    ensures forall g, o :: g in ParseRequisite(expr) && o in g ==>
              o != [] && Trim(Py, o) == o && '|' !in o && ',' !in o
  {
    if !IsBlank(Py, expr) {
      GroupsShape(Split(expr, ','));
    }
  }

  /** A course code as an alternative can hold it: non-empty, trimmed, and free of both separators. */
  predicate IsCode(o: string)
  {
    o != [] && Trim(Py, o) == o && ',' !in o && '|' !in o
  }

  /** Every group has at least one alternative, and every alternative is a code. */
  predicate WellFormedGroups(groups: seq<seq<string>>)
  {
    forall i :: 0 <= i < |groups| ==>
      |groups[i]| >= 1 && forall j :: 0 <= j < |groups[i]| ==> IsCode(groups[i][j])
  }

  /** Each group written out with its alternatives separated by `|`. */
  function GroupTexts(groups: seq<seq<string>>): (r: seq<string>)
    ensures |r| == |groups|
    ensures forall i :: 0 <= i < |groups| ==> r[i] == Join(groups[i], '|')
  {
    if |groups| == 0 then [] else [Join(groups[0], '|')] + GroupTexts(groups[1..])
  }

  /** A requisite expression written out: the groups separated by `,`. */
  function Render(groups: seq<seq<string>>): string
  {
    Join(GroupTexts(groups), ',')
  }

  /** Codes are kept as they are by the trim-and-drop-blanks step. */
  lemma {:induction false} NonBlankTrimmedCodes(g: seq<string>)
    requires forall j :: 0 <= j < |g| ==> IsCode(g[j])
    ensures NonBlankTrimmed(g) == g
  {
    if |g| > 0 {
      NonBlankTrimmedCodes(g[1..]);
      assert g == [g[0]] + g[1..];
    }
  }

  /** A group of codes written out with `|` has no white space to trim. */
  lemma JoinTrimmed(g: seq<string>)
    requires |g| >= 1 && forall j :: 0 <= j < |g| ==> IsCode(g[j])
    ensures Join(g, '|') != [] && Trim(Py, Join(g, '|')) == Join(g, '|')
  {
    var t := Join(g, '|');
    JoinEnds(g, '|');
    var last := g[|g| - 1];
    assert IsCode(g[0]) && IsCode(last);
    assert !IsSpace(Py, t[0]) && !IsSpace(Py, t[|t| - 1]);
    TrimOfTrimmed(Py, t);
  }

  /** A group of codes written out with `|` splits back into its alternatives. */
  lemma AlternativesOfJoin(g: seq<string>)
    requires |g| >= 1 && forall j :: 0 <= j < |g| ==> IsCode(g[j])
    ensures Alternatives(Join(g, '|')) == g
  {
    SplitJoin(g, '|');
    NonBlankTrimmedCodes(g);
  }

  /** A group of codes written out with `|` gives its alternatives back. */
  lemma GroupOfJoin(g: seq<string>)
    requires |g| >= 1 && forall j :: 0 <= j < |g| ==> IsCode(g[j])
    ensures GroupOf(Join(g, '|')) == [g]
  {
    JoinTrimmed(g);
    AlternativesOfJoin(g);
  }

  /** The written-out groups parse, piece by piece, into the groups. */
  lemma {:induction false} GroupsOfTexts(groups: seq<seq<string>>)
    requires WellFormedGroups(groups)
    ensures Groups(GroupTexts(groups)) == groups
  {
    if |groups| > 0 {
      GroupOfJoin(groups[0]);
      assert WellFormedGroups(groups[1..]) by {
        forall i | 0 <= i < |groups| - 1
          ensures |groups[1..][i]| >= 1 && forall j :: 0 <= j < |groups[1..][i]| ==> IsCode(groups[1..][i][j])
        {
          assert groups[1..][i] == groups[i + 1];
        }
      }
      GroupsOfTexts(groups[1..]);
      assert GroupTexts(groups)[1..] == GroupTexts(groups[1..]);
      assert groups == [groups[0]] + groups[1..];
    }
  }

  /**
   * Parsing is the inverse of writing out: groups of codes, separated by `|`
   * inside a group and by `,` between groups, parse back to those groups.
   * Every alternative of every group survives the parse, in order.
   */
  lemma ParseRender(groups: seq<seq<string>>)
    requires WellFormedGroups(groups)
    ensures ParseRequisite(Render(groups)) == groups
  {
    if |groups| > 0 {
      var texts := GroupTexts(groups);
      forall i | 0 <= i < |texts|
        ensures ',' !in texts[i] && texts[i] != []
      {
        JoinFree(groups[i], '|', ',');
        JoinEnds(groups[i], '|');
      }
      SplitJoin(texts, ',');
      GroupsOfTexts(groups);
      JoinEnds(texts, ',');
      JoinEnds(groups[0], '|');
      assert Trim(Py, groups[0][0]) == groups[0][0];
      assert !IsSpace(Py, Render(groups)[0]);
    }
  }

  // ---------------------------------------------------------------------
  // Satisfaction (`requirements_satisfied`)
  // ---------------------------------------------------------------------

  /** The normalised completed codes. */
  function NormSet(completed: set<string>): set<string>
  {
    set c | c in completed :: Norm(c)
  }

  /** One group is met when it is empty or one of its alternatives is completed. */
  predicate GroupMet(group: seq<string>, comp: set<string>)
  {
    group == [] || exists o :: o in group && Norm(o) in comp
  }

  /** Every group of `groups` is met. */
  predicate AllMet(groups: seq<seq<string>>, comp: set<string>)
  {
    forall k :: 0 <= k < |groups| ==> GroupMet(groups[k], comp)
  }

  /** The groups of a prefix one group longer are met when the shorter prefix and that group are. */
  lemma AllMetStep(groups: seq<seq<string>>, i: nat, comp: set<string>)
    requires i < |groups| && AllMet(groups[..i], comp) && GroupMet(groups[i], comp)
    ensures AllMet(groups[..i + 1], comp)
  {
    assert forall k :: 0 <= k < i ==> groups[..i + 1][k] == groups[..i][k];
  }

  /** Every group of the expression is met. */
  predicate Satisfied(completed: set<string>, expr: string)
  {
    AllMet(ParseRequisite(expr), NormSet(completed))
  }

  /** Whether some alternative of `group` is completed (the `any(...)` of the source). */
  method AnyCompleted(group: seq<string>, comp: set<string>) returns (any: bool)
    ensures any <==> exists o :: o in group && Norm(o) in comp
  {
    any := false;
    var j := 0;
    while j < |group|
      invariant 0 <= j <= |group|
      invariant any <==> exists k :: 0 <= k < j && Norm(group[k]) in comp
    {
      if Norm(group[j]) in comp {
        any := true;
      }
      j := j + 1;
    }
  }

  /** The check as the source writes it: a loop with an early `False`. */
  method RequirementsSatisfied(completed: set<string>, expr: string) returns (ok: bool)
    ensures ok <==> Satisfied(completed, expr)
  {
    var groups := ParseRequisiteString(expr);
    var comp := NormSet(completed);
    var i := 0;
    while i < |groups|
      invariant 0 <= i <= |groups|
      invariant AllMet(groups[..i], comp)
    {
      var group := groups[i];
      if group != [] {
        var any := AnyCompleted(group, comp);
        if !any {
          assert !GroupMet(groups[i], comp);
          return false;
        }
      }
      AllMetStep(groups, i, comp);
      i := i + 1;
    }
    assert groups[..i] == groups;
    return true;
  }

  /** An expression with no groups, in particular an empty one, is always met. */
  lemma EmptyExpressionSatisfied(completed: set<string>)
    ensures Satisfied(completed, "")
  {
  }

  /** `"||"` has no whitespace to trim. */
  lemma BarsTrimmed()
    ensures Trim(Py, "||") == "||"
  {
    assert TrimStart(Py, "||") == "||";
    assert TrimEnd(Py, "||") == "||";
  }

  /** `"||"` splits on `|` into three empty pieces, none of which survives trimming. */
  lemma BarsAlternatives()
    ensures NonBlankTrimmed(Split("||", '|')) == []
  {
    assert Split("||", '|') == ["", "", ""];
    assert NonBlankTrimmed(["", "", ""]) == [];
  }

  /** `"||"` is not blank. */
  lemma BarsNotBlank()
    ensures !IsBlank(Py, "||")
  {
    assert !IsSpace(Py, "||"[0]);
  }

  /** The comma piece `"||"` gives one group with no alternatives. */
  lemma BarsGroup()
    ensures GroupOf("||") == [[]]
  {
    BarsTrimmed();
    BarsAlternatives();
  }

  /** The single comma piece `"||"` gives the groups `[[]]`. */
  lemma BarsGroups()
    ensures Groups(["||"]) == [[]]
  {
    BarsGroup();
    assert ["||"][1..] == [];
  }

  /** `"||"` parses to one group with no alternatives. */
  lemma BarsParse()
    ensures ParseRequisite("||") == [[]]
  {
    SplitNoSep("||", ',');
    BarsNotBlank();
    BarsGroups();
  }

  /** A comma piece made only of `|` separators becomes an empty group, which is met. */
  lemma BarsOnlyGroup(completed: set<string>)
    ensures ParseRequisite("||") == [[]]
    ensures Satisfied(completed, "||")
  {
    BarsParse();
    assert GroupMet([], NormSet(completed));
  }

  /** Completing more courses never turns a met expression into an unmet one. */
  lemma SatisfiedMonotone(done: set<string>, more: set<string>, expr: string)
    requires done <= more
    requires Satisfied(done, expr)
    ensures Satisfied(more, expr)
  {
    assert NormSet(done) <= NormSet(more);
  }

  /** A single code is met by any completed code that normalises to it, whatever its spacing or case. */
  lemma SingleCodeMet(completed: set<string>, code: string, done: string)
    requires code != [] && !IsPySpace(code[0]) && !IsPySpace(code[|code| - 1])
    requires ',' !in code && '|' !in code
    requires done in completed && Norm(done) == Norm(code)
    ensures Satisfied(completed, code)
  {
    SplitNoSep(code, ',');
    SplitNoSep(code, '|');
    TrimOfTrimmed(Py, code);
    assert Groups([code]) == [Alternatives(code)];
    assert NonBlankTrimmed([code]) == [code];
    assert ParseRequisite(code) == [[code]];
    assert Norm(done) in NormSet(completed);
  }
}
