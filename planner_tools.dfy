/**
 * The planner's degree tools (backend/panther-planner/tools.py): a fixed
 * requirement template, the requirement diff against a map of completed
 * courses, and section lookup on exact codes.
 */
module PlannerTools {
  import opened Text
  import opened Seqs
  import opened Planning

  // ---------------------------------------------------------------------
  // load_major_template
  // ---------------------------------------------------------------------

  /** The computer science template: one bucket `core`, choose 2 of three courses. */
  const CsTemplate := Template([Bucket("core", 2, ["COP3530", "CDA3103", "COT3100"])])

  /** The table of known templates; only "CS" has one. */
  const Templates: map<string, Template> := map["CS" := CsTemplate]

  /** `templates.get(major, templates["CS"])`. */
  function LoadMajorTemplate(major: string): (r: Template)
    ensures major in Templates ==> r == Templates[major]
  {
    if major in Templates then Templates[major] else Templates["CS"]
  }

  /** Every major, known or not, gets the computer science template. */
  lemma LoadMajorTemplateIsCs(major: string)
    ensures LoadMajorTemplate(major) == CsTemplate
    ensures |LoadMajorTemplate(major).buckets| == 1
    ensures LoadMajorTemplate(major).buckets[0] == Bucket("core", 2, ["COP3530", "CDA3103", "COT3100"])
  {
  }

  // ---------------------------------------------------------------------
  // diff_requirements
  // ---------------------------------------------------------------------

  /** Whether a course is not a key of the completed map. */
  function NotCompletedFn(completed: set<string>): string -> bool
  {
    (c: string) => c !in completed
  }

  /** One bucket's entry: its id and choose, and its courses not completed, in order. */
  function NeededFor(b: Bucket, completed: set<string>): Needed
  {
    Needed(b.id, b.choose, Filter(b.courses, NotCompletedFn(completed)))
  }

  /** The needed entries of a list of buckets, one per bucket. */
  function NeededOf(buckets: seq<Bucket>, completed: set<string>): seq<Needed>
  {
    if |buckets| == 0 then []
    else NeededOf(buckets[..|buckets| - 1], completed) + [NeededFor(buckets[|buckets| - 1], completed)]
  }

  /** The diff `diff_requirements` returns for the completed codes `completed`. */
  function DiffOf(template: Template, completed: set<string>): Diff
  {
    var needed := NeededOf(template.buckets, completed);
    Diff(needed, SortedUnique(AllRemaining(needed)))
  }

  /** The diff as the source writes it: a loop appending one entry per bucket. */
  method DiffRequirements(template: Template, completed: map<string, int>) returns (r: Diff)
    ensures r == DiffOf(template, completed.Keys)
  {
    var needed: seq<Needed> := [];
    var i := 0;
    while i < |template.buckets|
      invariant 0 <= i <= |template.buckets|
      invariant needed == NeededOf(template.buckets[..i], completed.Keys)
    {
      var b := template.buckets[i];
      var remaining := Filter(b.courses, NotCompletedFn(completed.Keys));
      assert template.buckets[..i + 1][..i] == template.buckets[..i];
      needed := needed + [Needed(b.id, b.choose, remaining)];
      i := i + 1;
    }
    assert template.buckets[..i] == template.buckets;
    r := Diff(needed, SortedUnique(AllRemaining(needed)));
  }

  /** The needed entries follow the buckets one for one. */
  lemma {:induction false} NeededOfShape(buckets: seq<Bucket>, completed: set<string>)
    ensures |NeededOf(buckets, completed)| == |buckets|
    ensures forall k :: 0 <= k < |buckets| ==> NeededOf(buckets, completed)[k] == NeededFor(buckets[k], completed)
  {
    if |buckets| > 0 {
      var init := buckets[..|buckets| - 1];
      NeededOfShape(init, completed);
      assert forall k :: 0 <= k < |init| ==> buckets[k] == init[k];
    }
  }

  /**
   * Each needed entry keeps its bucket's id and choose, and its remaining
   * list is the bucket's courses that are not completed, in bucket order
   * (`Filter` keeps order: `FilterAppend`).
   */
  lemma DiffNeeded(template: Template, completed: set<string>, k: nat)
    requires k < |template.buckets|
    ensures var d := DiffOf(template, completed);
      |d.needed| == |template.buckets| &&
      d.needed[k].id == template.buckets[k].id &&
      d.needed[k].choose == template.buckets[k].choose &&
      d.needed[k].remaining == Filter(template.buckets[k].courses, NotCompletedFn(completed)) &&
      forall c :: c in d.needed[k].remaining <==> c in template.buckets[k].courses && c !in completed
  {
    NeededOfShape(template.buckets, completed);
  }

  /** Every eligible code is a non-completed course of some bucket. */
  lemma EligibleFromBucket(template: Template, completed: set<string>, c: string)
    requires c in DiffOf(template, completed).eligible
    ensures c !in completed && exists b :: b in template.buckets && c in b.courses
  {
    var d := DiffOf(template, completed);
    NeededOfShape(template.buckets, completed);
    var n :| n in d.needed && c in n.remaining;
    var k :| 0 <= k < |d.needed| && d.needed[k] == n;
    assert template.buckets[k] in template.buckets;
  }

  /** Every non-completed course of a bucket is eligible. */
  lemma BucketCourseEligible(template: Template, completed: set<string>, c: string, b: Bucket)
    requires b in template.buckets && c in b.courses && c !in completed
    ensures c in DiffOf(template, completed).eligible
  {
    var d := DiffOf(template, completed);
    NeededOfShape(template.buckets, completed);
    var k :| 0 <= k < |template.buckets| && template.buckets[k] == b;
    assert d.needed[k] in d.needed;
  }

  /** `eligible` is sorted, duplicate-free, and holds exactly the bucket courses that are not completed. */
  lemma DiffEligible(template: Template, completed: set<string>)
    ensures var d := DiffOf(template, completed);
      StrictlySorted(d.eligible) &&
      forall c :: c in d.eligible <==>
        c !in completed && exists b :: b in template.buckets && c in b.courses
  {
    var d := DiffOf(template, completed);
    forall c ensures c in d.eligible <==> c !in completed && exists b :: b in template.buckets && c in b.courses {
      if c in d.eligible {
        EligibleFromBucket(template, completed, c);
      }
      if c !in completed && exists b :: b in template.buckets && c in b.courses {
        var b :| b in template.buckets && c in b.courses;
        BucketCourseEligible(template, completed, c, b);
      }
    }
  }

  // ---------------------------------------------------------------------
  // get_sections
  // ---------------------------------------------------------------------

  /** Whether a section is offered in `term`, on one of `campuses`, for one of the codes exactly. */
  function SectionMatchesFn(term: string, campuses: seq<string>, courseCodes: seq<string>): Section -> bool
  {
    (s: Section) => s.term == term && s.campus in campuses && s.course in courseCodes
  }

  /** The sections of `term` on `campuses` for one of `courseCodes`, compared exactly, in input order. */
  function GetSections(sections: seq<Section>, term: string, campuses: seq<string>, courseCodes: seq<string>): (r: seq<Section>)
    ensures forall s :: s in r <==>
              s in sections && s.term == term && s.campus in campuses && s.course in courseCodes
  {
    Filter(sections, SectionMatchesFn(term, campuses, courseCodes))
  }

  /** The lookup is a filter on each section alone, so it keeps the input order. */
  lemma GetSectionsAppend(a: seq<Section>, b: seq<Section>, term: string, campuses: seq<string>, courseCodes: seq<string>)
    ensures GetSections(a + b, term, campuses, courseCodes) ==
            GetSections(a, term, campuses, courseCodes) + GetSections(b, term, campuses, courseCodes)
  {
    FilterAppend(a, b, SectionMatchesFn(term, campuses, courseCodes));
  }

  /** Codes are not normalised: a spelling that differs from every requested code finds nothing. */
  lemma GetSectionsExact(s: Section, term: string, campuses: seq<string>, courseCodes: seq<string>)
    requires s.course !in courseCodes
    ensures GetSections([s], term, campuses, courseCodes) == []
  {
  }
}
