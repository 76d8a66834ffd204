/**
 * The planning agent's degree tools (backend/panther_agent/tools.py):
 * major-id mapping and template loading from the database, the course
 * lookup with its 404 fallback, the requirement diff with prerequisite
 * checks, and section lookup on normalised codes. The HTTP client is a
 * parameter: a function from request path to response.
 */
module AgentTools {
  import opened Wrappers
  import opened Text
  import opened Seqs
  import opened Requisites
  import opened Planning

  // ---------------------------------------------------------------------
  // Database responses
  // ---------------------------------------------------------------------

  /**
   * A course document. `prereqs` is `None` when the field is missing or
   * is not a string.
   */
  datatype CourseDoc = CourseDoc(code: string, name: string, credits: int, prereqs: Option<string>)

  /** What `GET /courses/<code>` gives: a document or an HTTP error status. */
  datatype CourseResponse = CourseFound(doc: CourseDoc) | CourseStatus(status: int)

  /** One entry of a major's `required_courses`: a code, or a course document whose `code` key may be missing. */
  datatype RequiredEntry = CodeEntry(code: string) | DocEntry(docCode: Option<string>)

  /** A major document; `required` is `None` when it has no `required_courses` key. */
  datatype MajorDoc = MajorDoc(required: Option<seq<RequiredEntry>>)

  /** What `GET /majors/<id>` gives. */
  datatype MajorResponse = MajorFound(major: MajorDoc) | MajorStatus(status: int)

  /** How a template load fails. */
  datatype LoadError =
    | HttpError(status: int)   // `raise_for_status`
    | MissingCode              // `c["code"]` on a document without one: KeyError
    | CodeOfString             // `c["code"]` on a string entry after a document: TypeError
    | DocumentAfterCode        // a document entry after a leading code: kept as a dict by the source

  // ---------------------------------------------------------------------
  // load_major_template
  // ---------------------------------------------------------------------

  /** The stored major id: any major whose upper case starts with "CS" is "COMPSC:BS". */
  function MajorId(major: string): (r: string)
    ensures r == major || r == "COMPSC:BS"
    ensures !StartsWith(Upper(r), "CS")
  {
    if StartsWith(Upper(major), "CS") then StoredIdNotCs(); "COMPSC:BS" else major
  }

  lemma {:induction false} UpperAppend(a: string, b: string)
    ensures Upper(a + b) == Upper(a) + Upper(b)
  {
    assert |Upper(a + b)| == |Upper(a) + Upper(b)|;
    forall i | 0 <= i < |a| + |b| ensures Upper(a + b)[i] == (Upper(a) + Upper(b))[i] {
      if i < |a| { assert (a + b)[i] == a[i]; } else { assert (a + b)[i] == b[i - |a|]; }
    }
  }

  /** Any spelling of "cs" at the front maps to the stored computer science major. */
  lemma MajorIdOfCsPrefix(prefix: string, rest: string)
    requires Upper(prefix) == "CS"
    ensures MajorId(prefix + rest) == "COMPSC:BS"
  {
    UpperAppend(prefix, rest);
    assert Upper(prefix + rest)[..2] == "CS";
  }

  /** A major whose upper case does not start with "CS" is looked up unchanged. */
  lemma MajorIdOther(major: string)
    requires |major| < 2 || Upper(major[..2]) != "CS"
    ensures MajorId(major) == major
  {
    if |major| >= 2 {
      assert Upper(major)[..2] == Upper(major[..2]);
    }
  }

  /** Mapping an id again changes nothing: "COMPSC:BS" does not start with "CS". */
  lemma MajorIdIdempotent(major: string)
    ensures MajorId(MajorId(major)) == MajorId(major)
  {
    if StartsWith(Upper(major), "CS") {
      StoredIdNotCs();
    }
  }

  /** The upper case of "COMPSC:BS" has 'O' second, so it does not start with "CS". */
  lemma StoredIdNotCs()
    ensures !StartsWith(Upper("COMPSC:BS"), "CS")
  {
    var u := Upper("COMPSC:BS");
    assert u[1] == UpperChar('O') == 'O';
    assert u[..2][1] == u[1];
  }

  /** The codes of a list whose first entry is a document: each document's `code`. */
  function DocCodes(req: seq<RequiredEntry>): (r: Result<seq<string>, LoadError>)
    ensures r.Ok? ==> |r.value| == |req|
    ensures r.Ok? <==> forall k :: 0 <= k < |req| ==> req[k].DocEntry? && req[k].docCode.Some?
    ensures r.Ok? ==> forall k :: 0 <= k < |req| ==> r.value[k] == req[k].docCode.value
  {
    if |req| == 0 then Ok([])
    else match req[0]
      case CodeEntry(_) => Err(CodeOfString)
      case DocEntry(None) => Err(MissingCode)
      case DocEntry(Some(c)) =>
        var rest := DocCodes(req[1..]);
        if rest.Err? then rest else Ok([c] + rest.value)
  }

  /** A list whose first entry is a code, taken as it is; a later document has no code form here. */
  function PlainCodes(req: seq<RequiredEntry>): (r: Result<seq<string>, LoadError>)
    ensures r.Ok? ==> |r.value| == |req|
    ensures r.Ok? <==> forall k :: 0 <= k < |req| ==> req[k].CodeEntry?
    ensures r.Ok? ==> forall k :: 0 <= k < |req| ==> r.value[k] == req[k].code
  {
    if |req| == 0 then Ok([])
    else match req[0]
      case DocEntry(_) => Err(DocumentAfterCode)
      case CodeEntry(c) =>
        var rest := PlainCodes(req[1..]);
        if rest.Err? then rest else Ok([c] + rest.value)
  }

  /** The template for `major`, read from the database through `getMajor`. */
  function LoadMajorTemplate(major: string, getMajor: string -> MajorResponse): (r: Result<Template, LoadError>)
    ensures getMajor(MajorId(major)).MajorStatus? ==> r == Err(HttpError(getMajor(MajorId(major)).status))
    ensures r.Ok? ==> |r.value.buckets| == 1 && r.value.buckets[0].id == "core" && r.value.buckets[0].choose == 2
  {
    match getMajor(MajorId(major))
    case MajorStatus(st) => Err(HttpError(st))
    case MajorFound(mj) =>
      var req := if mj.required.Some? then mj.required.value else [];
      var codes := if |req| > 0 && req[0].DocEntry? then DocCodes(req) else PlainCodes(req);
      if codes.Err? then Err(codes.error)
      else Ok(Template([Bucket("core", 2, codes.value)]))
  }

  /** A major stored with plain codes gives those codes, in order, as the one bucket. */
  lemma LoadMajorTemplateCodes(major: string, getMajor: string -> MajorResponse, codes: seq<string>)
    requires getMajor(MajorId(major)) == MajorFound(MajorDoc(Some(seq(|codes|, k requires 0 <= k < |codes| => CodeEntry(codes[k])))))
    ensures LoadMajorTemplate(major, getMajor) == Ok(Template([Bucket("core", 2, codes)]))
  {
    var req := seq(|codes|, k requires 0 <= k < |codes| => CodeEntry(codes[k]));
    var r := PlainCodes(req);
    assert r.Ok?;
    assert r.value == codes;
  }

  /** The codes of a list of documents that all carry a `code`. */
  function DocumentCodes(req: seq<RequiredEntry>): seq<string>
    requires forall k :: 0 <= k < |req| ==> req[k].DocEntry? && req[k].docCode.Some?
  {
    seq(|req|, k requires 0 <= k < |req| => req[k].docCode.value)
  }

  /** A major stored with course documents gives each document's `code`, in order, as the one bucket. */
  lemma LoadMajorTemplateDocs(major: string, getMajor: string -> MajorResponse, req: seq<RequiredEntry>)
    requires getMajor(MajorId(major)) == MajorFound(MajorDoc(Some(req)))
    requires forall k :: 0 <= k < |req| ==> req[k].DocEntry? && req[k].docCode.Some?
    ensures LoadMajorTemplate(major, getMajor) == Ok(Template([Bucket("core", 2, DocumentCodes(req))]))
  {
    if |req| > 0 {
      var r := DocCodes(req);
      assert r.Ok?;
      assert r.value == DocumentCodes(req);
    } else {
      assert PlainCodes(req) == Ok([]);
      assert DocumentCodes(req) == [];
    }
  }

  /**
   * A document list fails at its first entry without a code: a KeyError
   * for a document without `code`, a TypeError for a string.
   */
  lemma {:induction false} DocCodesFirstBad(req: seq<RequiredEntry>, k: nat)
    requires k < |req|
    requires forall j :: 0 <= j < k ==> req[j].DocEntry? && req[j].docCode.Some?
    requires !(req[k].DocEntry? && req[k].docCode.Some?)
    ensures DocCodes(req) == Err(if req[k].CodeEntry? then CodeOfString else MissingCode)
  {
    if k > 0 {
      DocCodesFirstBad(req[1..], k - 1);
    }
  }

  /** A major whose list starts with a document fails with the error of its first entry without a code. */
  lemma LoadMajorTemplateDocFails(major: string, getMajor: string -> MajorResponse, req: seq<RequiredEntry>, k: nat)
    requires getMajor(MajorId(major)) == MajorFound(MajorDoc(Some(req)))
    requires 0 < |req| && req[0].DocEntry?
    requires k < |req|
    requires forall j :: 0 <= j < k ==> req[j].DocEntry? && req[j].docCode.Some?
    requires !(req[k].DocEntry? && req[k].docCode.Some?)
    ensures LoadMajorTemplate(major, getMajor) == Err(if req[k].CodeEntry? then CodeOfString else MissingCode)
  {
    DocCodesFirstBad(req, k);
  }

  /** A major with no `required_courses` key gives one empty bucket. */
  lemma LoadMajorTemplateNoRequired(major: string, getMajor: string -> MajorResponse)
    requires getMajor(MajorId(major)) == MajorFound(MajorDoc(None))
    ensures LoadMajorTemplate(major, getMajor) == Ok(Template([Bucket("core", 2, [])]))
  {
  }

  // ---------------------------------------------------------------------
  // _safe_get_course
  // ---------------------------------------------------------------------

  /** The record a course lookup falls back on when the course is not found. */
  function FallbackCourse(code: string): CourseDoc
  {
    CourseDoc(code, code, 3, Some(""))
  }

  /** The course document for `code`; a 404 gives the fallback record, any other error status is raised. */
  function SafeGetCourse(code: string, getCourse: string -> CourseResponse): (r: Result<CourseDoc, int>)
    ensures r.Err? <==> getCourse(code).CourseStatus? && getCourse(code).status != 404
    ensures r.Err? ==> r.error == getCourse(code).status
    ensures getCourse(code).CourseFound? ==> r == Ok(getCourse(code).doc)
    ensures getCourse(code) == CourseStatus(404) ==> r == Ok(FallbackCourse(code))
  {
    match getCourse(code)
    case CourseFound(doc) => Ok(doc)
    case CourseStatus(st) => if st == 404 then Ok(FallbackCourse(code)) else Err(st)
  }

  /** `cdoc.get("prereqs", "")` when it is a string, else "". */
  function PrereqExpr(doc: CourseDoc): string
  {
    if doc.prereqs.Some? then doc.prereqs.value else ""
  }

  /** A course whose prerequisites are missing or not a string has them met by anyone. */
  lemma NonStringPrereqsMet(doc: CourseDoc, completed: set<string>)
    requires doc.prereqs.None?
    ensures Satisfied(completed, PrereqExpr(doc))
  {
  }

  /** The fallback record of a course that is not found has no prerequisites to meet. */
  lemma FallbackPrereqsMet(code: string, completed: set<string>)
    ensures Satisfied(completed, PrereqExpr(FallbackCourse(code)))
  {
  }

  // ---------------------------------------------------------------------
  // diff_requirements
  // ---------------------------------------------------------------------

  /** The source's prerequisite check against the completed codes: `requirements_satisfied(completed, expr)`. */
  function PrereqCheck(completed: set<string>): string -> bool
  {
    (expr: string) => Satisfied(completed, expr)
  }

  /**
   * Whether `code` stays in a bucket's remaining list: not completed, found
   * (or a 404), and its prerequisite expression passes `met`.
   */
  predicate Keeps(code: string, completed: set<string>, getCourse: string -> CourseResponse, met: string -> bool)
  {
    code !in completed &&
    var d := SafeGetCourse(code, getCourse);
    d.Ok? && met(PrereqExpr(d.value))
  }

  /** `Keeps` as a filter predicate. */
  function KeepsFn(completed: set<string>, getCourse: string -> CourseResponse, met: string -> bool): string -> bool
  {
    (c: string) => Keeps(c, completed, getCourse, met)
  }

  /**
   * The remaining list of one bucket's courses under the prerequisite check
   * `met`; the first lookup error raised ends the diff.
   */
  function Remaining(courses: seq<string>, completed: set<string>, getCourse: string -> CourseResponse, met: string -> bool)
    : Result<seq<string>, int>
  {
    if |courses| == 0 then Ok([])
    else
      var init := Remaining(courses[..|courses| - 1], completed, getCourse, met);
      var code := courses[|courses| - 1];
      if init.Err? then init
      else if code in completed then init
      else
        var d := SafeGetCourse(code, getCourse);
        if d.Err? then Err(d.error)
        else if met(PrereqExpr(d.value)) then Ok(init.value + [code])
        else init
  }

  /** The needed entries of a list of buckets. */
  function NeededOf(buckets: seq<Bucket>, completed: set<string>, getCourse: string -> CourseResponse, met: string -> bool)
    : Result<seq<Needed>, int>
  {
    if |buckets| == 0 then Ok([])
    else
      var init := NeededOf(buckets[..|buckets| - 1], completed, getCourse, met);
      var b := buckets[|buckets| - 1];
      if init.Err? then init
      else
        var rem := Remaining(b.courses, completed, getCourse, met);
        if rem.Err? then Err(rem.error)
        else Ok(init.value + [Needed(b.id, b.choose, rem.value)])
  }

  /** The diff for the prerequisite check `met`, or the status of the lookup error raised. */
  function DiffWith(template: Template, completed: set<string>, getCourse: string -> CourseResponse, met: string -> bool)
    : Result<Diff, int>
  {
    var needed := NeededOf(template.buckets, completed, getCourse, met);
    if needed.Err? then Err(needed.error)
    else Ok(Diff(needed.value, SortedUnique(AllRemaining(needed.value))))
  }

  /** The diff `diff_requirements` returns, with the source's own prerequisite check. */
  function DiffOf(template: Template, completed: set<string>, getCourse: string -> CourseResponse): Result<Diff, int>
  {
    DiffWith(template, completed, getCourse, PrereqCheck(completed))
  }

  /** The inner loop of the diff: the eligible courses of one bucket, or the lookup error raised. */
  method RemainingCourses(courses: seq<string>, completedSet: set<string>, getCourse: string -> CourseResponse)
    returns (r: Result<seq<string>, int>)
    ensures r == Remaining(courses, completedSet, getCourse, PrereqCheck(completedSet))
  {
    ghost var met := PrereqCheck(completedSet);
    var remaining: seq<string> := [];
    var j := 0;
    while j < |courses|
      invariant 0 <= j <= |courses|
      invariant Remaining(courses[..j], completedSet, getCourse, met) == Ok(remaining)
    {
      var code := courses[j];
      assert courses[..j + 1][..j] == courses[..j];
      if code in completedSet {
        j := j + 1;
        continue;
      }
      var cdoc := SafeGetCourse(code, getCourse);
      if cdoc.Err? {
        RemainingErrorPersists(courses, j + 1, completedSet, getCourse, met);
        return Err(cdoc.error);
      }
      var prereqExpr := PrereqExpr(cdoc.value);
      var ok := RequirementsSatisfied(completedSet, prereqExpr);
      assert ok == met(prereqExpr);
      if ok {
        remaining := remaining + [code];
      }
      j := j + 1;
    }
    assert courses[..j] == courses;
    r := Ok(remaining);
  }

  /** The diff as the source writes it: nested loops, a lookup and a requisite check per course. */
  method DiffRequirements(template: Template, completed: map<string, int>, getCourse: string -> CourseResponse)
    returns (r: Result<Diff, int>)
    ensures r == DiffOf(template, completed.Keys, getCourse)
  {
    var completedSet := completed.Keys;
    ghost var met := PrereqCheck(completedSet);
    var buckets := template.buckets;
    var needed: seq<Needed> := [];
    var eligible: seq<string> := [];
    var i := 0;
    while i < |buckets|
      invariant 0 <= i <= |buckets|
      invariant NeededOf(buckets[..i], completedSet, getCourse, met) == Ok(needed)
      invariant eligible == AllRemaining(needed)
    {
      var b := buckets[i];
      var rem := RemainingCourses(b.courses, completedSet, getCourse);
      if rem.Err? {
        NeededErrorPersists(buckets, i, completedSet, getCourse, met);
        return Err(rem.error);
      }
      var remaining := rem.value;
      assert buckets[..i + 1][..i] == buckets[..i];
      var entry := Needed(b.id, b.choose, remaining);
      AllRemainingSnoc(needed, entry);
      needed := needed + [entry];
      eligible := eligible + remaining;
      i := i + 1;
    }
    assert buckets[..i] == buckets;
    r := Ok(Diff(needed, SortedUnique(eligible)));
  }

  /** Once a prefix of a bucket's courses raises, the whole bucket does. */
  lemma {:induction false} RemainingErrorPersists(courses: seq<string>, n: nat, completed: set<string>,
                                                  getCourse: string -> CourseResponse, met: string -> bool)
    requires n <= |courses|
    requires Remaining(courses[..n], completed, getCourse, met).Err?
    ensures Remaining(courses, completed, getCourse, met) == Remaining(courses[..n], completed, getCourse, met)
    decreases |courses| - n
  {
    if n < |courses| {
      assert courses[..n + 1][..n] == courses[..n];
      RemainingErrorPersists(courses, n + 1, completed, getCourse, met);
    } else {
      assert courses[..n] == courses;
    }
  }

  /** Once a prefix of the buckets raises, the whole list does. */
  lemma {:induction false} NeededErrorFrom(buckets: seq<Bucket>, n: nat, completed: set<string>,
                                           getCourse: string -> CourseResponse, met: string -> bool)
    requires n <= |buckets|
    requires NeededOf(buckets[..n], completed, getCourse, met).Err?
    ensures NeededOf(buckets, completed, getCourse, met) == NeededOf(buckets[..n], completed, getCourse, met)
    decreases |buckets| - n
  {
    if n < |buckets| {
      assert buckets[..n + 1][..n] == buckets[..n];
      NeededErrorFrom(buckets, n + 1, completed, getCourse, met);
    } else {
      assert buckets[..n] == buckets;
    }
  }

  /** A bucket that raises makes the whole diff raise with the same status. */
  lemma NeededErrorPersists(buckets: seq<Bucket>, i: nat, completed: set<string>,
                            getCourse: string -> CourseResponse, met: string -> bool)
    requires i < |buckets|
    requires NeededOf(buckets[..i], completed, getCourse, met).Ok?
    requires Remaining(buckets[i].courses, completed, getCourse, met).Err?
    ensures DiffWith(Template(buckets), completed, getCourse, met)
         == Err(Remaining(buckets[i].courses, completed, getCourse, met).error)
  {
    assert buckets[..i + 1][..i] == buckets[..i];
    NeededErrorFrom(buckets, i + 1, completed, getCourse, met);
  }

  // ---------------------------------------------------------------------
  // Properties of the diff
  // ---------------------------------------------------------------------

  /** When no lookup raises, a bucket's remaining list is its courses filtered by `Keeps`, in bucket order. */
  lemma {:induction false} RemainingIsFilter(courses: seq<string>, completed: set<string>,
                                             getCourse: string -> CourseResponse, met: string -> bool)
    requires forall c :: c in courses && c !in completed ==> SafeGetCourse(c, getCourse).Ok?
    ensures Remaining(courses, completed, getCourse, met) ==
            Ok(Filter(courses, KeepsFn(completed, getCourse, met)))
  {
    if |courses| > 0 {
      var init := courses[..|courses| - 1];
      var code := courses[|courses| - 1];
      var p := KeepsFn(completed, getCourse, met);
      RemainingIsFilter(init, completed, getCourse, met);
      assert courses == init + [code];
      FilterAppend(init, [code], p);
      assert [code][1..] == [];
      assert Filter([code], p) == if p(code) then [code] else [];
      assert p(code) == Keeps(code, completed, getCourse, met);
      assert code in courses;
      assert Remaining(init, completed, getCourse, met) == Ok(Filter(init, p));
      if code in completed {
        assert !p(code);
        assert Remaining(courses, completed, getCourse, met) == Ok(Filter(init, p));
        assert Filter(courses, p) == Filter(init, p) + [];
        assert Filter(init, p) + [] == Filter(init, p);
      } else {
        var d := SafeGetCourse(code, getCourse);
        assert d.Ok?;
        assert p(code) == met(PrereqExpr(d.value));
      }
    }
  }

  /** A remaining code is a bucket course that `Keeps` accepts, and every such course is remaining. */
  lemma {:induction false} RemainingMembers(courses: seq<string>, completed: set<string>,
                                            getCourse: string -> CourseResponse, met: string -> bool)
    requires Remaining(courses, completed, getCourse, met).Ok?
    ensures forall c :: c in Remaining(courses, completed, getCourse, met).value <==>
              c in courses && Keeps(c, completed, getCourse, met)
  {
    if |courses| > 0 {
      var init := courses[..|courses| - 1];
      var code := courses[|courses| - 1];
      assert courses == init + [code];
      RemainingMembers(init, completed, getCourse, met);
    }
  }

  /** The needed entries follow the buckets one for one, keeping id and choose. */
  lemma {:induction false} NeededShape(buckets: seq<Bucket>, completed: set<string>,
                                       getCourse: string -> CourseResponse, met: string -> bool)
    requires NeededOf(buckets, completed, getCourse, met).Ok?
    ensures var n := NeededOf(buckets, completed, getCourse, met).value;
      |n| == |buckets| &&
      forall k :: 0 <= k < |buckets| ==>
        n[k].id == buckets[k].id && n[k].choose == buckets[k].choose &&
        Remaining(buckets[k].courses, completed, getCourse, met) == Ok(n[k].remaining)
  {
    if |buckets| > 0 {
      var init := buckets[..|buckets| - 1];
      NeededShape(init, completed, getCourse, met);
      assert forall k :: 0 <= k < |init| ==> buckets[k] == init[k];
    }
  }

  /**
   * Every needed entry's remaining list holds exactly the bucket's courses
   * that are not completed and whose prerequisites are met, and no
   * completed code.
   */
  lemma DiffRemaining(template: Template, completed: set<string>, getCourse: string -> CourseResponse)
    requires DiffOf(template, completed, getCourse).Ok?
    ensures var d := DiffOf(template, completed, getCourse).value;
      |d.needed| == |template.buckets| &&
      forall k :: 0 <= k < |d.needed| ==>
        d.needed[k].id == template.buckets[k].id && d.needed[k].choose == template.buckets[k].choose &&
        forall c :: c in d.needed[k].remaining <==>
          c in template.buckets[k].courses && c !in completed && Keeps(c, completed, getCourse, PrereqCheck(completed))
  {
    var met := PrereqCheck(completed);
    var needed := NeededOf(template.buckets, completed, getCourse, met).value;
    NeededShape(template.buckets, completed, getCourse, met);
    forall k | 0 <= k < |needed|
      ensures forall c :: c in needed[k].remaining <==>
        c in template.buckets[k].courses && c !in completed && Keeps(c, completed, getCourse, met)
    {
      RemainingMembers(template.buckets[k].courses, completed, getCourse, met);
    }
  }

  /** When no lookup raises, each remaining list keeps its bucket's order. */
  lemma DiffRemainingOrder(template: Template, completed: set<string>, getCourse: string -> CourseResponse, k: nat)
    requires forall b, c :: b in template.buckets && c in b.courses && c !in completed ==> SafeGetCourse(c, getCourse).Ok?
    requires DiffOf(template, completed, getCourse).Ok?
    requires k < |template.buckets|
    ensures var d := DiffOf(template, completed, getCourse).value;
      k < |d.needed| &&
      d.needed[k].remaining == Filter(template.buckets[k].courses, KeepsFn(completed, getCourse, PrereqCheck(completed)))
  {
    var met := PrereqCheck(completed);
    NeededShape(template.buckets, completed, getCourse, met);
    assert template.buckets[k] in template.buckets;
    RemainingIsFilter(template.buckets[k].courses, completed, getCourse, met);
  }

  /** `eligible` is sorted, duplicate-free, and holds exactly the remaining codes of all buckets. */
  lemma DiffEligible(template: Template, completed: set<string>, getCourse: string -> CourseResponse)
    requires DiffOf(template, completed, getCourse).Ok?
    ensures var d := DiffOf(template, completed, getCourse).value;
      StrictlySorted(d.eligible) &&
      forall c :: c in d.eligible <==> exists n :: n in d.needed && c in n.remaining
  {
  }

  /** The diff raises exactly when some non-completed bucket course has a non-404 error status. */
  lemma DiffRaises(template: Template, completed: set<string>, getCourse: string -> CourseResponse)
    ensures DiffOf(template, completed, getCourse).Err? <==>
      exists b, c :: b in template.buckets && c in b.courses && c !in completed && SafeGetCourse(c, getCourse).Err?
  {
    var met := PrereqCheck(completed);
    NeededRaises(template.buckets, completed, getCourse, met);
  }

  lemma {:induction false} RemainingRaises(courses: seq<string>, completed: set<string>,
                                           getCourse: string -> CourseResponse, met: string -> bool)
    ensures Remaining(courses, completed, getCourse, met).Err? <==>
      exists c :: c in courses && c !in completed && SafeGetCourse(c, getCourse).Err?
  {
    if |courses| > 0 {
      var init := courses[..|courses| - 1];
      assert courses == init + [courses[|courses| - 1]];
      RemainingRaises(init, completed, getCourse, met);
    }
  }

  lemma {:induction false} NeededRaises(buckets: seq<Bucket>, completed: set<string>,
                                        getCourse: string -> CourseResponse, met: string -> bool)
    ensures NeededOf(buckets, completed, getCourse, met).Err? <==>
      exists b, c :: b in buckets && c in b.courses && c !in completed && SafeGetCourse(c, getCourse).Err?
  {
    if |buckets| > 0 {
      var init := buckets[..|buckets| - 1];
      var b := buckets[|buckets| - 1];
      assert buckets == init + [b];
      NeededRaises(init, completed, getCourse, met);
      RemainingRaises(b.courses, completed, getCourse, met);
    }
  }

  // ---------------------------------------------------------------------
  // get_sections
  // ---------------------------------------------------------------------

  /** Whether a section is offered in `term`, on one of `campuses`, for one of the normalised codes. */
  predicate SectionMatches(s: Section, term: string, campuses: seq<string>, codeSet: set<string>)
  {
    s.term == term && s.campus in campuses && Norm(s.course) in codeSet
  }

  /** The normalised requested codes. */
  function CodeSet(courseCodes: seq<string>): set<string>
  {
    set c | c in courseCodes :: Norm(c)
  }

  /** The comprehension's condition, as a function on one section. */
  function SectionMatchesFn(term: string, campuses: seq<string>, courseCodes: seq<string>): Section -> bool
  {
    (s: Section) => SectionMatches(s, term, campuses, CodeSet(courseCodes))
  }

  /** The sections of `term` on `campuses` whose normalised course is a normalised requested code, in order. */
  function GetSections(sections: seq<Section>, term: string, campuses: seq<string>, courseCodes: seq<string>): (r: seq<Section>)
    ensures forall s :: s in r <==>
              s in sections && s.term == term && s.campus in campuses &&
              exists c :: c in courseCodes && Norm(c) == Norm(s.course)
  {
    Filter(sections, SectionMatchesFn(term, campuses, courseCodes))
  }

  /** The lookup is a filter on each section alone, so it keeps the input order and every duplicate. */
  lemma GetSectionsAppend(a: seq<Section>, b: seq<Section>, term: string, campuses: seq<string>, courseCodes: seq<string>)
    ensures GetSections(a + b, term, campuses, courseCodes) ==
            GetSections(a, term, campuses, courseCodes) + GetSections(b, term, campuses, courseCodes)
  {
    FilterAppend(a, b, SectionMatchesFn(term, campuses, courseCodes));
  }

  /** One section is kept, once, exactly when it meets the comprehension's condition. */
  lemma GetSectionsOne(s: Section, term: string, campuses: seq<string>, courseCodes: seq<string>)
    ensures GetSections([s], term, campuses, courseCodes) ==
            if s.term == term && s.campus in campuses && exists c :: c in courseCodes && Norm(c) == Norm(s.course)
            then [s] else []
  {
    assert [s][1..] == [];
    if exists c :: c in courseCodes && Norm(c) == Norm(s.course) {
      var c :| c in courseCodes && Norm(c) == Norm(s.course);
      assert Norm(c) in CodeSet(courseCodes);
    }
  }

  /** A requested code matches every section whose course has the same normal form, whatever its spacing or case. */
  lemma GetSectionsNormalises(s: Section, term: string, campuses: seq<string>, code: string)
    requires s.term == term && s.campus in campuses && Norm(code) == Norm(s.course)
    ensures GetSections([s], term, campuses, [code]) == [s]
  {
    assert Norm(code) in CodeSet([code]);
    assert SectionMatches(s, term, campuses, CodeSet([code]));
  }
}
